/**
  The machine code of a guest callback trampoline (dlls/ntdll/signal_ppc64.c):
  the words that are emitted, decoded and executed, up to the dispatcher and
  back to the native caller.
 */
module CallbackStub {
  import opened Ppc

  // ----- decoding -----

  datatype Op = Plain(instr: Instr) | Bctr | Bctrl | Blr | Unknown

  function Primary(w: nat): nat { w / 0x400_0000 }

  function Rt(w: nat): nat { w / 0x20_0000 % 32 }

  function Ra(w: nat): nat { w / TWO16 % 32 }

  function Imm(w: nat): nat { w % TWO16 }

  /** The displacement of a DS-form instruction: its two low bits belong to the opcode. */
  function Ds(w: nat): int { Signed16(w / 4 * 4) }

  /** The instructions of Power ISA Version 3.1, Book I, that the emitter uses; anything else is Unknown. */
  function Decode(w: nat): Op {
    if Primary(w) == 15 && Ra(w) == 0 then Plain(Lis(Rt(w), Imm(w)))
    else if Primary(w) == 24 && Rt(w) == Ra(w) then Plain(Ori(Rt(w), Imm(w)))
    else if Primary(w) == 25 && Rt(w) == Ra(w) then Plain(Oris(Rt(w), Imm(w)))
    else if Primary(w) == 30 && Imm(w) == 0x07C6 && Rt(w) == Ra(w) then Plain(Sldi32(Rt(w)))
    else if Primary(w) == 14 && Ra(w) != 0 then Plain(Addi(Rt(w), Ra(w), Signed16(w)))
    else if Primary(w) == 58 && w % 4 == 0 && Ra(w) != 0 then Plain(Ld(Rt(w), Ds(w), Ra(w)))
    else if Primary(w) == 62 && w % 4 == 0 && Ra(w) != 0 then Plain(Std(Rt(w), Ds(w), Ra(w)))
    else if Primary(w) == 62 && w % 4 == 1 && Ra(w) != 0 then Plain(Stdu(Rt(w), Ds(w), Ra(w)))
    else if Primary(w) == 31 && w % 0x20_0000 == 0x08_02A6 then Plain(Mflr(Rt(w)))
    else if Primary(w) == 31 && w % 0x20_0000 == 0x08_03A6 then Plain(Mtlr(Rt(w)))
    else if Primary(w) == 31 && w % 0x20_0000 == 0x09_03A6 then Plain(Mtctr(Rt(w)))
    else if w == 0x4E80_0420 then Bctr
    else if w == 0x4E80_0421 then Bctrl
    else if w == 0x4E80_0020 then Blr
    else Unknown
  }

  // ----- execution -----

  /** Where straight-line execution stopped, and on what. */
  datatype Stop = Stop(m: Machine, at: nat, op: Op)

  function Go(m: Machine, code: seq<Op>, pc: nat): Stop
    decreases |code| - pc
  {
    if pc >= |code| then Stop(m, pc, Unknown)
    else if code[pc].Plain? then Go(Exec(m, code[pc].instr), code, pc + 1)
    else Stop(m, pc, code[pc])
  }

  function Fetch(words: seq<nat>): (code: seq<Op>)
    ensures |code| == |words| && forall k :: 0 <= k < |words| ==> code[k] == Decode(words[k])
  {
    seq(|words|, k requires 0 <= k < |words| => Decode(words[k]))
  }

  // ----- the emitter -----

  /** A D-form word: the emitter ors fields that do not overlap, which adds them. */
  function Word(base: nat, t: nat, a: nat, imm: nat): nat { base + t * 0x20_0000 + a * TWO16 + imm }

  function EmitLoadImm64(reg: nat, v: nat): seq<nat> {
    [ Word(0x3C00_0000, reg, 0, v / 0x1_0000_0000_0000 % TWO16),
      Word(0x6000_0000, reg, reg, v / TWO32 % TWO16),
      Word(0x7800_07C6, reg, reg, 0),
      Word(0x6400_0000, reg, reg, v / TWO16 % TWO16),
      Word(0x6000_0000, reg, reg, v % TWO16) ]
  }

  lemma {:induction false} WordFields(primary: nat, t: nat, a: nat, imm: nat)
    requires primary < 64 && t < 32 && a < 32 && imm < TWO16
    ensures var w := Word(primary * 0x400_0000, t, a, imm);
            Primary(w) == primary && Rt(w) == t && Ra(w) == a && Imm(w) == imm
  {
    var w := Word(primary * 0x400_0000, t, a, imm);
    var y := primary * 32 + t;
    var x := y * 32 + a;
    Quotient16(x, imm);
    Quotient5(y, a);
    Quotient21(y, a * TWO16 + imm);
    Quotient5(primary, t);
    Quotient26(primary, t * 0x20_0000 + a * TWO16 + imm);
  }

  lemma {:induction false} Quotient5(q: nat, r: nat)
    requires r < 32
    ensures (q * 32 + r) / 32 == q && (q * 32 + r) % 32 == r
  {
  }

  lemma {:induction false} Quotient16(q: nat, r: nat)
    requires r < TWO16
    ensures (q * TWO16 + r) / TWO16 == q && (q * TWO16 + r) % TWO16 == r
  {
  }

  lemma {:induction false} Quotient21(q: nat, r: nat)
    requires r < 0x20_0000
    ensures (q * 0x20_0000 + r) / 0x20_0000 == q
  {
  }

  lemma {:induction false} Quotient26(q: nat, r: nat)
    requires r < 0x400_0000
    ensures (q * 0x400_0000 + r) / 0x400_0000 == q
  {
  }

  lemma {:induction false} LoadDecodes(reg: nat, v: nat)
    requires reg < 32 && v < TWO64
    ensures var c := EmitLoadImm64(reg, v);
            && Decode(c[0]) == Plain(Lis(reg, v / 0x1_0000_0000_0000 % TWO16))
            && Decode(c[1]) == Plain(Ori(reg, v / TWO32 % TWO16))
            && Decode(c[2]) == Plain(Sldi32(reg))
            && Decode(c[3]) == Plain(Oris(reg, v / TWO16 % TWO16))
            && Decode(c[4]) == Plain(Ori(reg, v % TWO16))
  {
    WordFields(15, reg, 0, v / 0x1_0000_0000_0000 % TWO16);
    WordFields(24, reg, reg, v / TWO32 % TWO16);
    WordFields(30, reg, reg, 0x07C6);
    WordFields(25, reg, reg, v / TWO16 % TWO16);
    WordFields(24, reg, reg, v % TWO16);
  }

  /** What lis sign-extends into the upper half, the shift by 32 throws away. */
  lemma {:induction false} ShiftDropsTheSign(h: nat, g: nat)
    requires h < TWO16 && g < TWO16
    ensures OriValue(LisValue(h), g) * TWO32 % TWO64 == h * 0x1_0000_0000_0000 + g * TWO32
  {
    var x := h * TWO16 + g;
    var lis := LisValue(h);
    if h < TWO16 / 2 {
      assert lis == h * TWO16;
    } else {
      assert lis == h * TWO16 + (TWO64 - TWO32);
      assert (lis + g) * TWO32 == x * TWO32 + (TWO32 - 1) * TWO64;
    }
    assert lis % TWO16 == 0;
  }

  lemma {:induction false} OrisAdds(q: nat, h: nat)
    ensures OrisValue(q * TWO32, h) == q * TWO32 + h * TWO16
  {
    var x := q * TWO32;
    assert x % TWO32 == 0 && x / TWO32 == q;
    assert x % TWO16 == 0 && x / TWO16 == q * TWO16;
  }

  lemma {:induction false} OriAdds(q: nat, h: nat)
    ensures OriValue(q * TWO16, h) == q * TWO16 + h
  {
  }

  /** The four halfwords, loaded in that order, make up the value. */
  lemma {:induction false} LoadedValue(h3: nat, h2: nat, h1: nat, h0: nat)
    requires h3 < TWO16 && h2 < TWO16 && h1 < TWO16 && h0 < TWO16
    ensures OriValue(OrisValue(OriValue(LisValue(h3), h2) * TWO32 % TWO64, h1), h0)
            == h3 * 0x1_0000_0000_0000 + h2 * TWO32 + h1 * TWO16 + h0
  {
    var q := h3 * TWO16 + h2;
    ShiftDropsTheSign(h3, h2);
    OrisAdds(q, h1);
    OriAdds(q * TWO16 + h1, h0);
    calc {
      OriValue(OrisValue(OriValue(LisValue(h3), h2) * TWO32 % TWO64, h1), h0);
      OriValue(OrisValue(q * TWO32, h1), h0);
      OriValue((q * TWO16 + h1) * TWO16, h0);
    }
  }

  function Plains(instrs: seq<Instr>): (code: seq<Op>)
    ensures |code| == |instrs| && forall k :: 0 <= k < |instrs| ==> code[k] == Plain(instrs[k])
  {
    seq(|instrs|, k requires 0 <= k < |instrs| => Plain(instrs[k]))
  }

  /** Plain instructions are run through to what follows them. */
  lemma {:induction false} GoRuns(m: Machine, code: seq<Op>, pc: nat, instrs: seq<Instr>)
    requires pc + |instrs| <= |code| && code[pc..pc + |instrs|] == Plains(instrs)
    ensures Go(m, code, pc) == Go(Run(m, instrs), code, pc + |instrs|)
    decreases |instrs|
  {
    if instrs != [] {
      assert code[pc] == code[pc..pc + |instrs|][0];
      assert code[pc + 1..pc + 1 + |instrs[1..]|] == Plains(instrs[1..]) by {
        forall k | 0 <= k < |instrs| - 1 ensures code[pc + 1 + k] == Plain(instrs[1..][k]) {
          assert code[pc + (k + 1)] == code[pc..pc + |instrs|][k + 1];
        }
      }
      GoRuns(Exec(m, instrs[0]), code, pc + 1, instrs[1..]);
    }
  }

  /** From the start of the code: instructions, then a branch. */
  lemma {:induction false} GoStops(m: Machine, instrs: seq<Instr>, op: Op, rest: seq<Op>)
    requires !op.Plain?
    ensures Go(m, Plains(instrs) + [op] + rest, 0) == Stop(Run(m, instrs), |instrs|, op)
  {
    var code := Plains(instrs) + [op] + rest;
    assert code[0..0 + |instrs|] == Plains(instrs);
    GoRuns(m, code, 0, instrs);
  }

  function LoadInstrs(reg: nat, v: nat): seq<Instr> {
    [ Lis(reg, v / 0x1_0000_0000_0000 % TWO16), Ori(reg, v / TWO32 % TWO16), Sldi32(reg),
      Oris(reg, v / TWO16 % TWO16), Ori(reg, v % TWO16) ]
  }

  lemma {:induction false} Run5(m: Machine, a: Instr, b: Instr, c: Instr, d: Instr, e: Instr)
    ensures Run(m, [a, b, c, d, e]) == Exec(Exec(Exec(Exec(Exec(m, a), b), c), d), e)
  {
    RunAppend(m, [a, b], [c, d, e]);
    RunAppend(Exec(Exec(m, a), b), [c, d], [e]);
    assert [a, b] + [c, d, e] == [a, b, c, d, e] && [c, d] + [e] == [c, d, e];
    Run2(m, a, b);
    Run2(Exec(Exec(m, a), b), c, d);
    assert [e][1..] == [];
  }

  lemma {:induction false} Run2(m: Machine, a: Instr, b: Instr)
    ensures Run(m, [a, b]) == Exec(Exec(m, a), b)
  {
    assert Run(m, [a, b]) == Run(Exec(m, a), [b]) by { assert [a, b][1..] == [b]; }
    assert Run(Exec(m, a), [b]) == Run(Exec(Exec(m, a), b), []) by { assert [b][1..] == []; }
  }

  /** Executing a load leaves the whole value in its register and nothing else changed. */
  lemma {:induction false} LoadRuns(m: Machine, reg: nat, v: nat)
    requires v < TWO64
    ensures var r := Run(m, LoadInstrs(reg, v));
            && r.gpr(reg) == v
            && (forall x: nat :: x != reg ==> r.gpr(x) == m.gpr(x))
            && r == m.(gpr := r.gpr)
  {
    var h3, h2, h1, h0 := v / 0x1_0000_0000_0000 % TWO16, v / TWO32 % TWO16, v / TWO16 % TWO16, v % TWO16;
    Halfwords(v);
    LoadedValue(h3, h2, h1, h0);
    FiveOnOne(m, reg, h3, h2, h1, h0);
  }

  lemma {:induction false} Halfwords(v: nat)
    requires v < TWO64
    ensures v == v / 0x1_0000_0000_0000 % TWO16 * 0x1_0000_0000_0000 + v / TWO32 % TWO16 * TWO32
                 + v / TWO16 % TWO16 * TWO16 + v % TWO16
  {
  }

  lemma {:induction false} FiveOnOne(m: Machine, reg: nat, h3: nat, h2: nat, h1: nat, h0: nat)
    ensures var r := Run(m, [Lis(reg, h3), Ori(reg, h2), Sldi32(reg), Oris(reg, h1), Ori(reg, h0)]);
            && r.gpr(reg) == OriValue(OrisValue(OriValue(LisValue(h3), h2) * TWO32 % TWO64, h1), h0)
            && (forall x: nat :: x != reg ==> r.gpr(x) == m.gpr(x))
            && r == m.(gpr := r.gpr)
  {
    Run5(m, Lis(reg, h3), Ori(reg, h2), Sldi32(reg), Oris(reg, h1), Ori(reg, h0));
  }

  // ----- the two shapes of stub -----

  /** Four to seven arguments: the target rides in the register after the last argument, and the stub jumps. */
  function TailCode(fn: nat, dispatch: nat, argc: nat): seq<nat> {
    EmitLoadImm64(3 + argc, fn) + EmitLoadImm64(12, dispatch) + [0x7D89_03A6, 0x4E80_0420]
  }

  /** Eight and nine: a frame of its own, whose parameter save area carries the target and the ninth argument. */
  function CallCode(fn: nat, dispatch: nat, argc: nat): seq<nat> {
    CallEntry(argc) + EmitLoadImm64(11, fn) + [if argc == 9 then 0xF961_0068 else 0xF961_0060]
    + EmitLoadImm64(12, dispatch) + [0x7D89_03A6]
    + [0x4E80_0421] + [0x3821_0070, 0xE801_0010, 0x7C08_03A6] + [0x4E80_0020]
  }

  function CallEntry(argc: nat): seq<nat> {
    if argc == 9 then [0x7C08_02A6, 0xE961_0060, 0xF801_0010, 0xF821_FF91, 0xF961_0060]
    else [0x7C08_02A6, 0xF801_0010, 0xF821_FF91]
  }

  function StubCode(fn: nat, dispatch: nat, argc: nat): seq<nat> {
    if argc <= 7 then TailCode(fn, dispatch, argc) else CallCode(fn, dispatch, argc)
  }

  /** Parameter i of a function called on this machine: section 2.2 of the 64-Bit ELF V2 ABI, integers only. */
  function Param(m: Machine, i: nat): nat {
    if i < 8 then m.gpr(3 + i) else m.mem(m.gpr(1) + 32 + 8 * i)
  }

  /** The stack pointer has a page below it and a page above it. */
  predicate StackRoom(m: Machine) { 4096 <= m.gpr(1) < TWO64 - 4096 }

  lemma {:induction false} FetchAppend(a: seq<nat>, b: seq<nat>)
    ensures Fetch(a + b) == Fetch(a) + Fetch(b)
  {
  }

  lemma {:induction false} PlainsAppend(a: seq<Instr>, b: seq<Instr>)
    ensures Plains(a + b) == Plains(a) + Plains(b)
  {
  }

  lemma {:induction false} FetchLoad(reg: nat, v: nat)
    requires reg < 32 && v < TWO64
    ensures Fetch(EmitLoadImm64(reg, v)) == Plains(LoadInstrs(reg, v))
  {
    LoadDecodes(reg, v);
    var f, p := Fetch(EmitLoadImm64(reg, v)), Plains(LoadInstrs(reg, v));
    assert f[0] == p[0] && f[1] == p[1] && f[2] == p[2] && f[3] == p[3] && f[4] == p[4];
  }

  function TailInstrs(fn: nat, dispatch: nat, argc: nat): seq<Instr> {
    LoadInstrs(3 + argc, fn) + LoadInstrs(12, dispatch) + [Mtctr(12)]
  }

  lemma {:induction false} FetchTail(fn: nat, dispatch: nat, argc: nat)
    requires fn < TWO64 && dispatch < TWO64 && 4 <= argc <= 9
    ensures Fetch(TailCode(fn, dispatch, argc)) == Plains(TailInstrs(fn, dispatch, argc)) + [Bctr] + []
  {
    var a, b, c := EmitLoadImm64(3 + argc, fn), EmitLoadImm64(12, dispatch), [0x7D89_03A6, 0x4E80_0420];
    FetchAppend(a + b, c);
    FetchAppend(a, b);
    FetchLoad(3 + argc, fn);
    FetchLoad(12, dispatch);
    PlainsAppend(LoadInstrs(3 + argc, fn) + LoadInstrs(12, dispatch), [Mtctr(12)]);
    PlainsAppend(LoadInstrs(3 + argc, fn), LoadInstrs(12, dispatch));
    SingleWords();
    assert Fetch(c) == Plains([Mtctr(12)]) + [Bctr];
  }

  lemma {:induction false} RunThree(m: Machine, a: seq<Instr>, b: seq<Instr>, i: Instr)
    ensures Run(m, a + b + [i]) == Exec(Run(Run(m, a), b), i)
  {
    RunAppend(m, a + b, [i]);
    RunAppend(m, a, b);
    var at := Run(Run(m, a), b);
    assert Run(at, [i]) == Run(Exec(at, i), []) by { assert [i][1..] == []; }
  }

  lemma {:induction false} TailRuns(m: Machine, fn: nat, dispatch: nat, argc: nat) returns (r: Machine)
    requires fn < TWO64 && dispatch < TWO64 && 4 <= argc <= 9
    ensures Go(m, Fetch(TailCode(fn, dispatch, argc)), 0) == Stop(r, 11, Bctr)
    ensures r.ctr == dispatch && r.lr == m.lr && r.mem == m.mem && r.fpr == m.fpr
    ensures r.gpr(12) == dispatch && (argc < 9 ==> r.gpr(3 + argc) == fn)
    ensures forall x: nat :: x != 12 && x != 3 + argc ==> r.gpr(x) == m.gpr(x)
  {
    FetchTail(fn, dispatch, argc);
    GoStops(m, TailInstrs(fn, dispatch, argc), Bctr, []);
    RunThree(m, LoadInstrs(3 + argc, fn), LoadInstrs(12, dispatch), Mtctr(12));
    LoadRuns(m, 3 + argc, fn);
    var m1 := Run(m, LoadInstrs(3 + argc, fn));
    LoadRuns(m1, 12, dispatch);
    r := Exec(Run(m1, LoadInstrs(12, dispatch)), Mtctr(12));
  }

  function EntryInstrs(argc: nat): seq<Instr> {
    if argc == 9 then [Mflr(0), Ld(11, 96, 1), Std(0, 16, 1), Stdu(1, -112, 1), Std(11, 96, 1)]
    else [Mflr(0), Std(0, 16, 1), Stdu(1, -112, 1)]
  }

  lemma {:induction false} FetchEntry(argc: nat)
    ensures Fetch(CallEntry(argc)) == Plains(EntryInstrs(argc))
  {
  }

  /** LR is saved in the caller's frame, and the ninth argument fetched from it. */
  ghost predicate Fetched(m: Machine, r: Machine) {
    var sp := m.gpr(1);
    && r.gpr(11) == m.mem(sp + 96) && r.mem(sp + 16) == m.lr && r.lr == m.lr && r.fpr == m.fpr
    && (forall x: nat :: x !in {0, 11} ==> r.gpr(x) == m.gpr(x))
    && (forall a: nat :: a != sp + 16 ==> r.mem(a) == m.mem(a))
  }

  lemma {:induction false} FetchesNinth(m: Machine)
    requires StackRoom(m)
    ensures Fetched(m, Exec(Exec(Exec(m, Mflr(0)), Ld(11, 96, 1)), Std(0, 16, 1)))
  {
  }

  /** The frame is made, linked to the caller's, and the ninth argument put in it. */
  ghost predicate Pushed(m: Machine, r: Machine)
    requires StackRoom(m)
  {
    var sp := m.gpr(1);
    && r.gpr(1) == sp - 112 && r.mem(sp - 112) == sp && r.mem(sp - 112 + 96) == m.gpr(11)
    && r.lr == m.lr && r.fpr == m.fpr
    && (forall x: nat :: x != 1 ==> r.gpr(x) == m.gpr(x))
    && (forall a: nat :: a >= sp ==> r.mem(a) == m.mem(a))
  }

  lemma {:induction false} PushesNinth(m: Machine)
    requires StackRoom(m)
    ensures Pushed(m, Exec(Exec(m, Stdu(1, -112, 1)), Std(11, 96, 1)))
  {
  }

  lemma {:induction false} FetchedThenPushed(m: Machine, f: Machine, r: Machine)
    requires StackRoom(m) && Fetched(m, f) && StackRoom(f) && Pushed(f, r)
    ensures Entered(m, r, 9)
  {
  }

  lemma {:induction false} EntryRuns9(m: Machine)
    requires StackRoom(m)
    ensures Entered(m, Run(m, EntryInstrs(9)), 9)
  {
    var f := Exec(Exec(Exec(m, Mflr(0)), Ld(11, 96, 1)), Std(0, 16, 1));
    var r := Exec(Exec(f, Stdu(1, -112, 1)), Std(11, 96, 1));
    FetchesNinth(m);
    PushesNinth(f);
    FetchedThenPushed(m, f, r);
    assert Run(m, EntryInstrs(9)) == r by { Run5(m, Mflr(0), Ld(11, 96, 1), Std(0, 16, 1), Stdu(1, -112, 1), Std(11, 96, 1)); }
  }

  lemma {:induction false} EntryRuns8(m: Machine)
    requires StackRoom(m)
    ensures Entered(m, Run(m, EntryInstrs(8)), 8)
  {
  }

  /** After the prologue the old frame holds LR and the new one, at nine arguments, the ninth. */
  lemma {:induction false} EntryRuns(m: Machine, argc: nat) returns (r: Machine)
    requires StackRoom(m) && (argc == 8 || argc == 9)
    ensures r == Run(m, EntryInstrs(argc)) && Entered(m, r, argc)
  {
    if argc == 9 { EntryRuns9(m); } else { EntryRuns8(m); }
    r := Run(m, EntryInstrs(argc));
  }

  // ----- the call shape -----

  function TargetSlot(argc: nat): nat { if argc == 9 then 104 else 96 }

  function CallInstrs(fn: nat, dispatch: nat, argc: nat): seq<Instr> {
    (EntryInstrs(argc) + LoadInstrs(11, fn) + [Std(11, TargetSlot(argc), 1)]) + LoadInstrs(12, dispatch) + [Mtctr(12)]
  }

  const EPILOGUE: seq<Instr> := [Addi(1, 1, 112), Ld(0, 16, 1), Mtlr(0)]

  lemma {:induction false} FetchCall(fn: nat, dispatch: nat, argc: nat)
    requires fn < TWO64 && dispatch < TWO64
    ensures Fetch(CallCode(fn, dispatch, argc))
            == Plains(CallInstrs(fn, dispatch, argc)) + [Bctrl] + (Plains(EPILOGUE) + [Blr])
  {
    var e, a, s, b := CallEntry(argc), EmitLoadImm64(11, fn), [if argc == 9 then 0xF961_0068 else 0xF961_0060],
                      EmitLoadImm64(12, dispatch);
    var t, u, v, w := [0x7D89_03A6], [0x4E80_0421], [0x3821_0070, 0xE801_0010, 0x7C08_03A6], [0x4E80_0020];
    FetchAppend(e + a + s + b + t + u + v, w);
    FetchAppend(e + a + s + b + t + u, v);
    FetchAppend(e + a + s + b + t, u);
    FetchAppend(e + a + s + b, t);
    FetchAppend(e + a + s, b);
    FetchAppend(e + a, s);
    FetchAppend(e, a);
    FetchEntry(argc);
    FetchLoad(11, fn);
    FetchLoad(12, dispatch);
    SingleWords();
    assert Fetch(s) == Plains([Std(11, TargetSlot(argc), 1)]);
    assert Fetch(t) == Plains([Mtctr(12)]) && Fetch(u) == [Bctrl] && Fetch(w) == [Blr];
    FetchEpilogue();
    PlainsCall(EntryInstrs(argc), LoadInstrs(11, fn), [Std(11, TargetSlot(argc), 1)], LoadInstrs(12, dispatch), [Mtctr(12)]);
  }

  lemma {:induction false} PlainsCall(a: seq<Instr>, b: seq<Instr>, c: seq<Instr>, d: seq<Instr>, e: seq<Instr>)
    ensures Plains(a + b + c + d + e) == Plains(a) + Plains(b) + Plains(c) + Plains(d) + Plains(e)
  {
  }

  lemma {:induction false} FetchEpilogue()
    ensures Fetch([0x3821_0070, 0xE801_0010, 0x7C08_03A6]) == Plains(EPILOGUE)
  {
  }

  lemma {:induction false} SingleWords()
    ensures Decode(0xF961_0068) == Plain(Std(11, 104, 1)) && Decode(0xF961_0060) == Plain(Std(11, 96, 1))
    ensures Decode(0x7D89_03A6) == Plain(Mtctr(12)) && Decode(0x4E80_0421) == Bctrl && Decode(0x4E80_0020) == Blr
    ensures Decode(0x4E80_0420) == Bctr
  {
  }

  /** What holds at the dispatcher's entry, `low` being the frame the stub made and `slot` where the target went. */
  ghost predicate Stored(m: Machine, r: Machine, fn: nat, dispatch: nat, slot: nat) {
    && r.ctr == dispatch == r.gpr(12) && r.lr == m.lr && r.fpr == m.fpr
    && r.mem(m.gpr(1) + slot) == fn
    && (forall a: nat :: a != m.gpr(1) + slot ==> r.mem(a) == m.mem(a))
    && (forall x: nat :: x != 11 && x != 12 ==> r.gpr(x) == m.gpr(x))
  }

  lemma {:induction false} TargetStored(m: Machine, fn: nat, dispatch: nat, slot: nat) returns (r: Machine)
    requires fn < TWO64 && dispatch < TWO64 && m.gpr(1) + slot < TWO64
    ensures r == Exec(Run(Run(m, LoadInstrs(11, fn) + [Std(11, slot, 1)]), LoadInstrs(12, dispatch)), Mtctr(12))
    ensures Stored(m, r, fn, dispatch, slot)
  {
    LoadRuns(m, 11, fn);
    var at := Run(m, LoadInstrs(11, fn));
    RunAppend(m, LoadInstrs(11, fn), [Std(11, slot, 1)]);
    var st := Exec(at, Std(11, slot, 1));
    assert Run(at, [Std(11, slot, 1)]) == Run(st, []) by { assert [Std(11, slot, 1)][1..] == []; }
    LoadRuns(st, 12, dispatch);
    r := Exec(Run(st, LoadInstrs(12, dispatch)), Mtctr(12));
  }

  ghost predicate Entered(m: Machine, r: Machine, argc: nat)
    requires StackRoom(m)
  {
    var sp := m.gpr(1);
    && r.gpr(1) == sp - 112 && r.mem(sp - 112) == sp
    && r.mem(sp + 16) == m.lr
    && (argc == 9 ==> r.mem(sp - 112 + 96) == m.mem(sp + 96))
    && r.lr == m.lr && r.fpr == m.fpr
    && (forall x: nat :: x !in {0, 1, 11} ==> r.gpr(x) == m.gpr(x))
    && (forall a: nat :: a >= sp && a != sp + 16 ==> r.mem(a) == m.mem(a))
  }

  ghost predicate AtDispatcher(m: Machine, r: Machine, fn: nat, dispatch: nat, argc: nat)
    requires StackRoom(m)
  {
    && r.ctr == dispatch == r.gpr(12) && r.lr == m.lr && r.fpr == m.fpr
    && r.gpr(1) == m.gpr(1) - 112 && r.mem(r.gpr(1)) == m.gpr(1) && r.mem(m.gpr(1) + 16) == m.lr
    && r.mem(r.gpr(1) + TargetSlot(argc)) == fn
    && (argc == 9 ==> r.mem(r.gpr(1) + 96) == m.mem(m.gpr(1) + 96))
    && (forall x: nat :: x !in {0, 1, 11, 12} ==> r.gpr(x) == m.gpr(x))
    && (forall a: nat :: a >= m.gpr(1) && a != m.gpr(1) + 16 ==> r.mem(a) == m.mem(a))
  }

  lemma {:induction false} EnteredThenStored(m: Machine, e: Machine, r: Machine, fn: nat, dispatch: nat, argc: nat)
    requires StackRoom(m) && (argc == 8 || argc == 9)
    requires Entered(m, e, argc) && Stored(e, r, fn, dispatch, TargetSlot(argc))
    ensures AtDispatcher(m, r, fn, dispatch, argc)
  {
  }

  lemma {:induction false} CallRuns(m: Machine, fn: nat, dispatch: nat, argc: nat) returns (r: Machine)
    requires fn < TWO64 && dispatch < TWO64 && (argc == 8 || argc == 9) && StackRoom(m)
    ensures Go(m, Fetch(CallCode(fn, dispatch, argc)), 0) == Stop(r, |CallInstrs(fn, dispatch, argc)|, Bctrl)
    ensures AtDispatcher(m, r, fn, dispatch, argc)
  {
    var e := EntryRuns(m, argc);
    r := TargetStored(e, fn, dispatch, TargetSlot(argc));
    EnteredThenStored(m, e, r, fn, dispatch, argc);
    FetchCall(fn, dispatch, argc);
    GoStops(m, CallInstrs(fn, dispatch, argc), Bctrl, Plains(EPILOGUE) + [Blr]);
    RunCall(m, EntryInstrs(argc), LoadInstrs(11, fn), [Std(11, TargetSlot(argc), 1)], LoadInstrs(12, dispatch), Mtctr(12));
  }

  lemma {:induction false} RunCall(m: Machine, a: seq<Instr>, b: seq<Instr>, c: seq<Instr>, d: seq<Instr>, i: Instr)
    ensures Run(m, (a + b + c) + d + [i]) == Exec(Run(Run(Run(m, a), b + c), d), i)
  {
    RunThree(m, a + b + c, d, i);
    assert a + b + c == a + (b + c);
    RunAppend(m, a, b + c);
  }

  lemma {:induction false} EpilogueRuns(back: Machine, sp: nat) returns (r: Machine)
    requires 112 <= sp < TWO64 - 16 && back.gpr(1) == sp - 112
    ensures r == Run(back, EPILOGUE)
    ensures r.lr == back.mem(sp + 16) && r.gpr(1) == sp && r.mem == back.mem && r.fpr == back.fpr
    ensures forall x: nat :: x != 0 && x != 1 ==> r.gpr(x) == back.gpr(x)
  {
    RunAppend(back, [Addi(1, 1, 112), Ld(0, 16, 1)], [Mtlr(0)]);
    assert [Addi(1, 1, 112), Ld(0, 16, 1)] + [Mtlr(0)] == EPILOGUE;
    Run2(back, Addi(1, 1, 112), Ld(0, 16, 1));
    assert [Mtlr(0)][1..] == [];
    r := Exec(Exec(Exec(back, Addi(1, 1, 112)), Ld(0, 16, 1)), Mtlr(0));
  }

  /** What a dispatcher entered on machine r may rely on, when the native caller called the stub on machine m. */
  ghost predicate Served(m: Machine, r: Machine, fn: nat, dispatch: nat, argc: nat) {
    && r.ctr == dispatch == r.gpr(12) && r.lr == m.lr && r.fpr == m.fpr
    && (forall i: nat :: i < argc ==> Param(r, i) == Param(m, i))
    && Param(r, argc) == fn
    && (forall x: nat :: x == 2 || 14 <= x < 32 ==> r.gpr(x) == m.gpr(x))
    && (if argc <= 7 then r.gpr(1) == m.gpr(1) && r.mem == m.mem else r.mem(r.gpr(1)) == m.gpr(1))
    && (forall a: nat :: a >= m.gpr(1) && a != m.gpr(1) + 16 ==> r.mem(a) == m.mem(a))
  }

  lemma {:induction false} CallServes(m: Machine, r: Machine, fn: nat, dispatch: nat, argc: nat)
    requires (argc == 8 || argc == 9) && StackRoom(m) && AtDispatcher(m, r, fn, dispatch, argc)
    ensures Served(m, r, fn, dispatch, argc)
  {
  }

  /** The native caller branches to the stub. */
  function CallStub(m: Machine, fn: nat, dispatch: nat, argc: nat): Stop {
    Go(m, Fetch(StubCode(fn, dispatch, argc)), 0)
  }

  /** The dispatcher returns to the stub, to the word after its branch. */
  function ReturnToStub(back: Machine, fn: nat, dispatch: nat, argc: nat): Stop {
    Go(back, Fetch(StubCode(fn, dispatch, argc)), if argc == 9 then 18 else 16)
  }

  /**
    Whatever the native caller passes, the dispatcher the stub enters finds the
    caller's argc arguments and the guest function as one argument more; r12
    and the count register hold its global entry, the link register still
    returns to the native caller, and no register or memory the caller relies
    on has changed.
   */
  lemma {:induction false} DispatcherGetsArgumentsAndTarget(m: Machine, fn: nat, dispatch: nat, argc: nat)
    requires fn < TWO64 && dispatch < TWO64 && 4 <= argc <= 9 && StackRoom(m)
    ensures var stop := CallStub(m, fn, dispatch, argc);
            && stop.op == (if argc <= 7 then Bctr else Bctrl)
            && stop.at == (if argc <= 7 then 11 else if argc == 8 then 15 else 17)
            && Served(m, stop.m, fn, dispatch, argc)
  {
    if argc <= 7 {
      var r := TailRuns(m, fn, dispatch, argc);
    } else {
      var r := CallRuns(m, fn, dispatch, argc);
      CallServes(m, r, fn, dispatch, argc);
    }
  }

  /**
    The call shape comes back: from any machine on which the dispatcher returns
    with the stack pointer it was given and the link register's slot as it was,
    the stub returns to the native caller, on its stack, with the dispatcher's
    result in r3.
   */
  lemma {:induction false} StubReturnsTheResult(m: Machine, fn: nat, dispatch: nat, argc: nat, back: Machine)
    requires fn < TWO64 && dispatch < TWO64 && 8 <= argc <= 9 && StackRoom(m)
    requires var r := CallStub(m, fn, dispatch, argc).m;
             back.gpr(1) == r.gpr(1) && back.mem(m.gpr(1) + 16) == r.mem(m.gpr(1) + 16)
    ensures var end := ReturnToStub(back, fn, dispatch, argc);
            && end.op == Blr
            && end.m.lr == m.lr && end.m.gpr(1) == m.gpr(1) && end.m.mem == back.mem && end.m.fpr == back.fpr
            && (forall x: nat :: x != 0 && x != 1 ==> end.m.gpr(x) == back.gpr(x))
  {
    assert back.gpr(1) == m.gpr(1) - 112 && back.mem(m.gpr(1) + 16) == m.lr by { LeavesRoom(m, fn, dispatch, argc); }
    var end := ReturnRuns(back, m.gpr(1), fn, dispatch, argc);
  }

  lemma {:induction false} LeavesRoom(m: Machine, fn: nat, dispatch: nat, argc: nat)
    requires fn < TWO64 && dispatch < TWO64 && 8 <= argc <= 9 && StackRoom(m)
    ensures var r := CallStub(m, fn, dispatch, argc).m; r.gpr(1) == m.gpr(1) - 112 && r.mem(m.gpr(1) + 16) == m.lr
  {
    var r := CallRuns(m, fn, dispatch, argc);
    assert CallStub(m, fn, dispatch, argc).m == r;
  }

  lemma {:induction false} ReturnRuns(back: Machine, sp: nat, fn: nat, dispatch: nat, argc: nat) returns (end: Machine)
    requires fn < TWO64 && dispatch < TWO64 && 8 <= argc <= 9
    requires 112 <= sp < TWO64 - 16 && back.gpr(1) == sp - 112
    ensures ReturnToStub(back, fn, dispatch, argc) == Stop(end, if argc == 9 then 21 else 19, Blr)
    ensures end.lr == back.mem(sp + 16) && end.gpr(1) == sp && end.mem == back.mem && end.fpr == back.fpr
    ensures forall x: nat :: x != 0 && x != 1 ==> end.gpr(x) == back.gpr(x)
  {
    end := EpilogueRuns(back, sp);
    FetchCall(fn, dispatch, argc);
    GoFinishes(back, CallInstrs(fn, dispatch, argc), EPILOGUE);
  }

  lemma {:induction false} GoFinishes(m: Machine, a: seq<Instr>, b: seq<Instr>)
    ensures var code := Plains(a) + [Bctrl] + (Plains(b) + [Blr]);
            Go(m, code, |a| + 1) == Stop(Run(m, b), |a| + 1 + |b|, Blr)
  {
    var code := Plains(a) + [Bctrl] + (Plains(b) + [Blr]);
    assert code[|a| + 1..|a| + 1 + |b|] == Plains(b);
    GoRuns(m, code, |a| + 1, b);
  }

  /** The jumping shape, at any arity. */
  function CallTail(m: Machine, fn: nat, dispatch: nat, argc: nat): Stop {
    Go(m, Fetch(TailCode(fn, dispatch, argc)), 0)
  }

  /**
    Why eight arguments need the other shape: with the jumping one, the
    dispatcher finds its target exactly when there are at most seven arguments,
    or when the caller's own frame happened to hold it already.
   */
  lemma {:induction false} TailShapeServesSevenAtMost(m: Machine, fn: nat, dispatch: nat, argc: nat)
    requires fn < TWO64 && dispatch < TWO64 && 4 <= argc <= 9
    ensures Param(CallTail(m, fn, dispatch, argc).m, argc) == fn
            <==> argc <= 7 || m.mem(m.gpr(1) + 32 + 8 * argc) == fn
  {
    var r := TailRuns(m, fn, dispatch, argc);
    assert CallTail(m, fn, dispatch, argc).m == r;
    assert argc >= 8 ==> Param(r, argc) == m.mem(m.gpr(1) + 32 + 8 * argc);
  }

  /** The stub always fits the 22 words its slot has. */
  lemma {:induction false} StubFitsItsSlot(fn: nat, dispatch: nat, argc: nat)
    requires 4 <= argc <= 9
    ensures |StubCode(fn, dispatch, argc)| == if argc <= 7 then 12 else if argc == 8 then 20 else 22
  {
  }
}
