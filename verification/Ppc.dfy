/**
  The few POWER instructions that the port assembles by hand or emits at run
  time, over 64-bit registers and a memory of doublewords.  Every address used
  is a multiple of eight from a sixteen-byte aligned stack pointer or from an
  array of doublewords, so distinct addresses are disjoint doublewords.
 */
module Ppc {

  const TWO16: nat := 0x1_0000
  const TWO32: nat := 0x1_0000_0000
  const TWO64: nat := 0x1_0000_0000_0000_0000

  datatype Machine = Machine(gpr: nat -> nat, fpr: nat -> nat, lr: nat, ctr: nat, mem: nat -> nat)

  datatype Instr =
    | Lis(t: nat, imm: nat)
    | Ori(t: nat, imm: nat)
    | Oris(t: nat, imm: nat)
    | Sldi32(t: nat)
    | Addi(t: nat, a: nat, disp: int)
    | Mr(t: nat, a: nat)
    | Mflr(t: nat)
    | Mtlr(t: nat)
    | Mtctr(t: nat)
    | Ld(t: nat, disp: int, a: nat)
    | Std(t: nat, disp: int, a: nat)
    | Stdu(t: nat, disp: int, a: nat)
    | Lfd(t: nat, disp: int, a: nat)
    | Stfd(t: nat, disp: int, a: nat)

  /** A register file or a memory with one cell replaced. */
  function Set(cells: nat -> nat, at: nat, v: nat): nat -> nat {
    (x: nat) => if x == at then v else cells(x)
  }

  /** The address a D-form instruction names; base register 0 would mean the constant zero and is never used. */
  function Address(m: Machine, a: nat, disp: int): nat { (m.gpr(a) + disp) % TWO64 }

  /** Sixteen bits read as a signed number. */
  function Signed16(imm: nat): int { if imm % TWO16 < TWO16 / 2 then imm % TWO16 else imm % TWO16 - TWO16 }

  /** Bitwise or. */
  function Or(a: nat, b: nat): nat {
    if a == 0 then b else if b == 0 then a
    else (if a % 2 == 1 || b % 2 == 1 then 1 else 0) + 2 * Or(a / 2, b / 2)
  }

  predicate Bit(n: nat, i: nat)
    decreases i
  {
    if i == 0 then n % 2 == 1 else Bit(n / 2, i - 1)
  }

  lemma {:induction false} NoBits(i: nat)
    ensures !Bit(0, i)
  {
    if i > 0 { NoBits(i - 1); }
  }

  lemma {:induction false} OrIsBitwise(a: nat, b: nat, i: nat)
    ensures Bit(Or(a, b), i) <==> Bit(a, i) || Bit(b, i)
    decreases i
  {
    NoBits(i);
    if i > 0 && a != 0 && b != 0 { OrIsBitwise(a / 2, b / 2, i - 1); }
  }

  function OriValue(x: nat, imm: nat): nat { x / TWO16 * TWO16 + Or(x % TWO16, imm) }

  function OrisValue(x: nat, imm: nat): nat { x / TWO32 * TWO32 + Or(x / TWO16 % TWO16, imm) * TWO16 + x % TWO16 }

  function LisValue(imm: nat): nat { Signed16(imm) * TWO16 % TWO64 }

  function Exec(m: Machine, i: Instr): Machine {
    match i
    case Lis(t, imm) => m.(gpr := Set(m.gpr, t, LisValue(imm)))
    case Ori(t, imm) => m.(gpr := Set(m.gpr, t, OriValue(m.gpr(t), imm)))
    case Oris(t, imm) => m.(gpr := Set(m.gpr, t, OrisValue(m.gpr(t), imm)))
    case Sldi32(t) => m.(gpr := Set(m.gpr, t, m.gpr(t) * TWO32 % TWO64))
    case Addi(t, a, disp) => m.(gpr := Set(m.gpr, t, Address(m, a, disp)))
    case Mr(t, a) => m.(gpr := Set(m.gpr, t, m.gpr(a)))
    case Mflr(t) => m.(gpr := Set(m.gpr, t, m.lr))
    case Mtlr(t) => m.(lr := m.gpr(t))
    case Mtctr(t) => m.(ctr := m.gpr(t))
    case Ld(t, disp, a) => m.(gpr := Set(m.gpr, t, m.mem(Address(m, a, disp))))
    case Std(t, disp, a) => m.(mem := Set(m.mem, Address(m, a, disp), m.gpr(t)))
    case Stdu(t, disp, a) =>
      m.(mem := Set(m.mem, Address(m, a, disp), m.gpr(t)), gpr := Set(m.gpr, a, Address(m, a, disp)))
    case Lfd(t, disp, a) => m.(fpr := Set(m.fpr, t, m.mem(Address(m, a, disp))))
    case Stfd(t, disp, a) => m.(mem := Set(m.mem, Address(m, a, disp), m.fpr(t)))
  }

  function Run(m: Machine, code: seq<Instr>): Machine
    decreases |code|
  {
    if code == [] then m else Run(Exec(m, code[0]), code[1..])
  }

  lemma {:induction false} RunAppend(m: Machine, a: seq<Instr>, b: seq<Instr>)
    ensures Run(m, a + b) == Run(Run(m, a), b)
    decreases |a|
  {
    if a == [] {
      assert a + b == b;
    } else {
      assert (a + b)[0] == a[0] && (a + b)[1..] == a[1..] + b;
      RunAppend(Exec(m, a[0]), a[1..], b);
    }
  }
}
