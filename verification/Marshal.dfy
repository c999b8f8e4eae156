/**
  A guest's call into native code: the descriptor words a generator packs for
  each export (tools/spec2thunk), the marshaller that reads them back and
  splits the guest's arguments (dlls/ntdll/signal_ppc64.c), and the assembly
  that loads the registers.  The caller follows the Microsoft x64 calling
  convention, the callee section 2.2 of the OpenPOWER 64-Bit ELF V2 ABI.
 */
module Marshal {
  import opened Ppc

  const TWO8: nat := 0x100

  const MAX_ARGS: nat := 16     // THUNK_MAX_ARGS
  const MAX_FP_ARGS: nat := 8   // THUNK_MAX_FP_ARGS

  // ----- signatures -----

  /** Declared parameter types, by what the two conventions distinguish. */
  datatype Type = Int(size: nat, signed: bool) | Float | Double

  predicate Fp(ty: Type) { !ty.Int? }

  function Size(ty: Type): nat { if ty.Int? then ty.size else if ty.Float? then 4 else 8 }

  /** One more than the largest value of a type, read as unsigned. */
  function Range(ty: Type): (r: nat)
    ensures r > 0
  {
    if Size(ty) == 1 then TWO8 else if Size(ty) == 2 then TWO16 else if Size(ty) == 4 then TWO32 else TWO64
  }

  /** What the generator accepts: at most sixteen arguments, the floating-point ones among the first eight. */
  predicate Accepted(tys: seq<Type>) {
    && |tys| <= MAX_ARGS
    && forall i :: 0 <= i < |tys| ==> Size(tys[i]) in {1, 2, 4, 8} && (i >= MAX_FP_ARGS ==> !Fp(tys[i]))
  }

  // ----- the descriptor words: packed by the generator, read by the dispatcher -----

  /** The sum of codes[j] << (j * width), for a field `width` bits wide and base == 2^width. */
  function Digits(codes: seq<nat>, base: nat): nat {
    if codes == [] then 0 else codes[0] + base * Digits(codes[1..], base)
  }

  /** (word >> (i * width)) & (base - 1). */
  function Digit(word: nat, base: nat, i: nat): nat
    requires base == 2 || base == 4
    decreases i
  {
    if i == 0 then word % base else Digit(word / base, base, i - 1)
  }

  function Codes(tys: seq<Type>, code: Type -> nat): (s: seq<nat>)
    ensures |s| == |tys| && forall i :: 0 <= i < |tys| ==> s[i] == code(tys[i])
  {
    seq(|tys|, i requires 0 <= i < |tys| => code(tys[i]))
  }

  function NarrowBit(ty: Type): nat { if Size(ty) <= 4 then 1 else 0 }

  function WidthCode(ty: Type): nat {
    if Size(ty) == 4 then 1 else if Size(ty) == 2 then 2 else if Size(ty) == 1 then 3 else 0
  }

  function SignBit(ty: Type): nat { if ty.Int? && Size(ty) <= 2 && ty.signed then 1 else 0 }

  function FpBit(ty: Type): nat { if Fp(ty) then 1 else 0 }

  function SingleBit(ty: Type): nat { if ty.Float? then 1 else 0 }

  datatype Words = Words(argc: nat, narrow: nat, widths: nat, signs: nat, fpMask: nat, single: nat)

  function Pack(tys: seq<Type>): Words {
    Words(|tys|, Digits(Codes(tys, NarrowBit), 2), Digits(Codes(tys, WidthCode), 4), Digits(Codes(tys, SignBit), 2),
          Digits(Codes(tys, FpBit), 2), Digits(Codes(tys, SingleBit), 2))
  }

  datatype Cut = Keep | Low(bytes: nat, sign: bool)

  /** How one argument is to be taken. */
  datatype Slot = FpSlot(single: bool) | IntSlot(cut: Cut)

  /** The width word decides unless it is zero; then the narrow mask cuts to 32 bits. */
  function ReadCut(w: Words, i: nat): Cut {
    if w.widths != 0 then
      var width := Digit(w.widths, 4, i);
      var sign := Digit(w.signs, 2, i) == 1;
      if width == 1 then Low(4, false) else if width == 2 then Low(2, sign) else if width == 3 then Low(1, sign) else Keep
    else if Digit(w.narrow, 2, i) == 1 then Low(4, false)
    else Keep
  }

  function ReadSlot(w: Words, i: nat): Slot {
    if Digit(w.fpMask, 2, i) == 1 then FpSlot(Digit(w.single, 2, i) == 1) else IntSlot(ReadCut(w, i))
  }

  function ReadSlots(w: Words): (s: seq<Slot>)
    ensures |s| == w.argc && forall i :: 0 <= i < w.argc ==> s[i] == ReadSlot(w, i)
  {
    seq(w.argc, i requires 0 <= i < w.argc => ReadSlot(w, i))
  }

  /** The slot a type calls for: four bytes are never sign-extended. */
  function SlotFor(ty: Type): Slot {
    if Fp(ty) then FpSlot(ty.Float?)
    else if ty.size == 4 then IntSlot(Low(4, false))
    else if ty.size <= 2 then IntSlot(Low(ty.size, ty.signed))
    else IntSlot(Keep)
  }

  lemma {:induction false} DigitOfDigits(codes: seq<nat>, base: nat, i: nat)
    requires (base == 2 || base == 4) && forall j :: 0 <= j < |codes| ==> codes[j] < base
    ensures Digit(Digits(codes, base), base, i) == if i < |codes| then codes[i] else 0
    decreases i
  {
    var w := Digits(codes, base);
    if codes == [] {
      if i > 0 { DigitOfDigits([], base, i - 1); }
    } else {
      var rest := Digits(codes[1..], base);
      assert base == 2 ==> w == codes[0] + 2 * rest;
      assert base == 4 ==> w == codes[0] + 4 * rest;
      assert w % base == codes[0] && w / base == rest;
      if i > 0 { DigitOfDigits(codes[1..], base, i - 1); }
    }
  }

  lemma {:induction false} NoDigits(codes: seq<nat>, base: nat, i: nat)
    requires (base == 2 || base == 4) && Digits(codes, base) == 0 && i < |codes|
    ensures codes[i] == 0
    decreases i
  {
    assert base * Digits(codes[1..], base) == 0;
    if i > 0 { NoDigits(codes[1..], base, i - 1); }
  }

  /** What the dispatcher reads from the packed words is what each declared type calls for. */
  lemma {:induction false} PackedWordsSaySlots(tys: seq<Type>, i: nat)
    requires Accepted(tys) && i < |tys|
    ensures ReadSlot(Pack(tys), i) == SlotFor(tys[i])
  {
    DigitOfDigits(Codes(tys, NarrowBit), 2, i);
    DigitOfDigits(Codes(tys, WidthCode), 4, i);
    DigitOfDigits(Codes(tys, SignBit), 2, i);
    DigitOfDigits(Codes(tys, FpBit), 2, i);
    DigitOfDigits(Codes(tys, SingleBit), 2, i);
    if Pack(tys).widths == 0 {
      NoDigits(Codes(tys, WidthCode), 4, i);
    }
  }

  /** Without the width word the narrow mask alone cuts to 32 bits, exactly what is declared no wider. */
  lemma {:induction false} WithoutWidthsNarrowDecides(tys: seq<Type>, i: nat)
    requires Accepted(tys) && i < |tys|
    ensures ReadCut(Pack(tys).(widths := 0), i) == if Size(tys[i]) in {1, 2, 4} then Low(4, false) else Keep
  {
    DigitOfDigits(Codes(tys, NarrowBit), 2, i);
  }

  function Power(base: nat, n: nat): nat { if n == 0 then 1 else base * Power(base, n - 1) }

  /** Fields that are zero from the n-th on need only n fields' worth of bits. */
  lemma {:induction false} DigitsFit(codes: seq<nat>, base: nat, n: nat)
    requires (base == 2 || base == 4) && forall j :: 0 <= j < |codes| ==> codes[j] < base && (j >= n ==> codes[j] == 0)
    ensures Digits(codes, base) < Power(base, n)
    decreases |codes| + n
  {
    if codes == [] {
      if n > 0 { DigitsFit([], base, n - 1); }
    } else {
      var m := if n > 0 then n - 1 else 0;
      DigitsFit(codes[1..], base, m);
      var rest := Digits(codes[1..], base);
      assert base == 2 ==> Digits(codes, base) == codes[0] + 2 * rest;
      assert base == 4 ==> Digits(codes, base) == codes[0] + 4 * rest;
    }
  }

  /**
    No measurement is cut off: sixteen two-bit widths fill a 32-bit word, the
    narrow bits half of one, and the floating-point bits the low byte that is read.
   */
  lemma {:induction false} PackedWordsFit(tys: seq<Type>)
    requires Accepted(tys)
    ensures Pack(tys).widths < TWO32 && Pack(tys).narrow < TWO16 && Pack(tys).signs < TWO16
    ensures Pack(tys).fpMask < TWO8 && Pack(tys).single < TWO8
  {
    DigitsFit(Codes(tys, WidthCode), 4, 16);
    DigitsFit(Codes(tys, NarrowBit), 2, 16);
    DigitsFit(Codes(tys, SignBit), 2, 16);
    DigitsFit(Codes(tys, FpBit), 2, 8);
    DigitsFit(Codes(tys, SingleBit), 2, 8);
    assert Power(4, 4) == 256 && Power(2, 4) == 16;
    assert Power(4, 8) == 256 * 256 && Power(2, 8) == 256;
    assert Power(4, 12) == 256 * 256 * 256 && Power(2, 12) == 4096;
  }

  // ----- the caller: Microsoft x64 -----

  /** The guest at its call: the argument registers, and a stack with the return address on top. */
  datatype Caller = Caller(rcx: nat, rdx: nat, r8: nat, r9: nat, rsp: nat, xmm: nat -> nat, mem: nat -> nat)

  const SHADOW: nat := 32   // what a caller reserves above the return address for the register arguments

  /** Four positions have a register each; the fifth argument is the first on the stack, above the shadow space. */
  function IntPlace(g: Caller, i: nat): nat {
    if i < 4 then [g.rcx, g.rdx, g.r8, g.r9][i] else g.mem(g.rsp + 8 + SHADOW + 8 * (i - 4))
  }

  function FpPlace(g: Caller, i: nat): nat { if i < 4 then g.xmm(i) else g.mem(g.rsp + 8 + SHADOW + 8 * (i - 4)) }

  /** The caller has put these arguments there, with anything at all above an argument's own width. */
  ghost predicate Placed(g: Caller, tys: seq<Type>, args: seq<nat>) {
    && |args| == |tys|
    && (forall i: nat :: IntPlace(g, i) < TWO64 && FpPlace(g, i) < TWO64)
    && forall i :: 0 <= i < |tys| ==>
         args[i] == (if Fp(tys[i]) then FpPlace(g, i) else IntPlace(g, i)) % Range(tys[i])
  }

  /** The trap context the marshaller reads.  SYSCALL destroys RCX, so the stub moves it to R10 first. */
  datatype Context = Context(r10: nat, rdx: nat, r8: nat, r9: nat, rsp: nat, xmm: nat -> nat, mem: nat -> nat)

  function AtTrap(g: Caller): Context { Context(g.rcx, g.rdx, g.r8, g.r9, g.rsp, g.xmm, g.mem) }

  // ----- the marshaller -----

  /** Where the marshaller looks for the word of argument i. */
  function GuestWord(c: Context, i: nat): nat {
    match i
    case 0 => c.r10
    case 1 => c.rdx
    case 2 => c.r8
    case 3 => c.r9
    case _ => c.mem(c.rsp + 8 + 8 * i)
  }

  function GuestFpWord(c: Context, i: nat): nat { if i < 4 then c.xmm(i) else c.mem(c.rsp + 8 + 8 * i) }

  /** It looks where the convention puts it. */
  lemma {:induction false} WordsAreWhereThePlacesAre(g: Caller, i: nat)
    ensures GuestWord(AtTrap(g), i) == IntPlace(g, i) && GuestFpWord(AtTrap(g), i) == FpPlace(g, i)
  {
    if i >= 4 { assert g.rsp + 8 + SHADOW + 8 * (i - 4) == g.rsp + 8 + 8 * i; }
  }

  /** A number of so many values, read as signed. */
  function Signed(v: nat, range: nat): int { if v < range / 2 then v else v - range }

  function SignExtend(v: nat, range: nat): nat
    requires 0 < range <= TWO64
  {
    if v % range >= range / 2 then v % range + TWO64 - range else v % range
  }

  /** Sign extension keeps the number that the low bits are. */
  lemma {:induction false} SignExtendKeepsTheNumber(v: nat, range: nat)
    requires range in {TWO8, TWO16, TWO32, TWO64}
    ensures SignExtend(v, range) < TWO64 && Signed(SignExtend(v, range), TWO64) == Signed(v % range, range)
  {
  }

  /** narrow_thunk_arg */
  function Apply(cut: Cut, v: nat): nat {
    match cut
    case Keep => v
    case Low(bytes, sign) =>
      var range := if bytes == 1 then TWO8 else if bytes == 2 then TWO16 else TWO32;
      if sign then SignExtend(v, range) else v % range
  }

  function FpValue(c: Context, single: bool, i: nat, widen: nat -> nat): nat {
    if single then widen(GuestFpWord(c, i) % TWO32) else GuestFpWord(c, i)
  }

  /** The integer register image: position by position, a floating-point argument leaving a hole. */
  function GprAt(c: Context, slots: seq<Slot>, i: nat): nat {
    if i < |slots| && slots[i].IntSlot? then Apply(slots[i].cut, GuestWord(c, i)) else 0
  }

  function Gprs(c: Context, slots: seq<Slot>): (g: seq<nat>)
    ensures |g| == MAX_ARGS && forall i :: 0 <= i < MAX_ARGS ==> g[i] == GprAt(c, slots, i)
  {
    seq(MAX_ARGS, i requires 0 <= i < MAX_ARGS => GprAt(c, slots, i))
  }

  /** The floating-point arguments among the first n, in order. */
  function FpValues(c: Context, slots: seq<Slot>, n: nat, widen: nat -> nat): (f: seq<nat>)
    requires n <= |slots|
    ensures |f| <= n
  {
    if n == 0 then []
    else FpValues(c, slots, n - 1, widen)
         + if slots[n - 1].FpSlot? then [FpValue(c, slots[n - 1].single, n - 1, widen)] else []
  }

  /** marshal_thunk_args_fp, its descriptor words already read into slots. */
  method MarshalArgsFp(c: Context, slots: seq<Slot>, widen: nat -> nat) returns (gpr: array<nat>, fpr: array<nat>)
    requires |slots| <= MAX_ARGS && forall i :: MAX_FP_ARGS <= i < |slots| ==> slots[i].IntSlot?
    ensures gpr.Length == MAX_ARGS && forall i :: 0 <= i < MAX_ARGS ==> gpr[i] == GprAt(c, slots, i)
    ensures forall i :: 0 <= i < MAX_ARGS && (i >= |slots| || slots[i].FpSlot?) ==> gpr[i] == 0
    ensures fpr.Length == MAX_FP_ARGS && FpValues(c, slots, |slots|, widen) <= fpr[..]
  {
    gpr := new nat[MAX_ARGS](_ => 0);
    fpr := new nat[MAX_FP_ARGS](_ => 0);
    var i, nfpr := 0, 0;
    while i < |slots|
      invariant 0 <= i <= |slots|
      invariant nfpr == |FpValues(c, slots, i, widen)| <= MAX_FP_ARGS
      invariant i <= MAX_FP_ARGS ==> nfpr <= i
      invariant fpr[..nfpr] == FpValues(c, slots, i, widen)
      invariant forall j :: 0 <= j < i ==> gpr[j] == GprAt(c, slots, j)
      invariant forall j :: i <= j < MAX_ARGS ==> gpr[j] == 0
    {
      if slots[i].FpSlot? {
        if nfpr < MAX_FP_ARGS {
          fpr[nfpr] := FpValue(c, slots[i].single, i, widen);
          nfpr := nfpr + 1;
        }
      } else {
        gpr[i] := Apply(slots[i].cut, GuestWord(c, i));
      }
      i := i + 1;
    }
  }

  /** marshal_thunk_args: the path for exports without floating point writes exactly the arguments there are. */
  method MarshalArgs(c: Context, slots: seq<Slot>, a: array<nat>)
    requires a.Length == MAX_ARGS && |slots| <= MAX_ARGS && forall i :: 0 <= i < |slots| ==> slots[i].IntSlot?
    modifies a
    ensures a[..|slots|] == Gprs(c, slots)[..|slots|] && a[|slots|..] == old(a[|slots|..])
  {
    var i := 0;
    while i < |slots|
      invariant 0 <= i <= |slots|
      invariant forall j :: 0 <= j < i ==> a[j] == Gprs(c, slots)[j]
      invariant forall j :: |slots| <= j < MAX_ARGS ==> a[j] == old(a[j])
    {
      a[i] := Apply(slots[i].cut, GuestWord(c, i));
      i := i + 1;
    }
  }
}
