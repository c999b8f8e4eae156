/**
  The pool of guest callback trampolines and the window-procedure entry points
  that use it (dlls/ntdll/signal_ppc64.c).
 */
module CallbackPool {
  import Ppc
  import CallbackStub

  const GUEST_CB_BLOCK: nat := 1024
  const MAX_GUEST_CB_BLOCKS: nat := 64
  const STUB_SIZE: nat := 104   // 22 code words, the target, the width and the arity

  /** A stub: its code and the three parts of its identity. */
  datatype Stub = Stub(code: seq<nat>, fn: nat, wide: bool, argc: nat)

  /**
    What a value is: an address inside a guest module, inside some other image,
    or in none, where only generated guest code is; or no address at all, but a
    window-procedure handle that win32u has given out.
   */
  datatype Place = GuestModule | NativeImage | NoImage | Winproc

  /** Block b holds stubs 1024 * b and on; the last block may be part used. */
  datatype Pool = Pool(bases: seq<nat>, stubs: seq<Stub>)

  function Used(p: Pool, b: nat): int { if b + 1 == |p.bases| then |p.stubs| - GUEST_CB_BLOCK * b else GUEST_CB_BLOCK }

  ghost predicate Filled(p: Pool) {
    && |p.bases| <= MAX_GUEST_CB_BLOCKS
    && |p.stubs| <= GUEST_CB_BLOCK * |p.bases|
    && (|p.bases| > 0 ==> GUEST_CB_BLOCK * (|p.bases| - 1) <= |p.stubs|)
  }

  function AddressOf(p: Pool, k: nat): nat
    requires k < GUEST_CB_BLOCK * |p.bases|
  {
    p.bases[k / GUEST_CB_BLOCK] + STUB_SIZE * (k % GUEST_CB_BLOCK)
  }

  predicate InBlock(base: nat, a: nat) { base <= a < base + STUB_SIZE * GUEST_CB_BLOCK }

  predicate Supported(argc: nat) { 4 <= argc <= 9 }

  /** How a stub's code is made for a target, a width and an arity, given the dispatchers' entry points. */
  function Minted(dispatch: (bool, nat) -> nat): (nat, bool, nat) -> seq<nat> {
    (fn, wide, argc) => CallbackStub.StubCode(fn, dispatch(wide, argc), argc)
  }

  ghost predicate SameKey(s: Stub, t: Stub) { s.fn == t.fn && s.wide == t.wide && s.argc == t.argc }

  ghost predicate Valid(p: Pool, mint: (nat, bool, nat) -> seq<nat>) {
    && Filled(p)
    && (forall b :: 0 <= b < |p.bases| ==> p.bases[b] > 0)
    && (forall b, c: nat, a: nat :: 0 <= b < c < |p.bases| && InBlock(p.bases[b], a) ==> !InBlock(p.bases[c], a))
    && (forall j, k :: 0 <= j < k < |p.stubs| ==> !SameKey(p.stubs[j], p.stubs[k]))
    && (forall k :: 0 <= k < |p.stubs| ==> GoodStub(p, p.stubs[k], mint))
  }

  ghost predicate GoodStub(p: Pool, s: Stub, mint: (nat, bool, nat) -> seq<nat>) {
    && s.fn != 0 && Supported(s.argc)
    && s.code == mint(s.fn, s.wide, s.argc)
    && forall b :: 0 <= b < |p.bases| ==> !InBlock(p.bases[b], s.fn)
  }

  // ----- specification: lookups and wrapping on values -----

  predicate Owns(p: Pool, a: nat) {
    exists b :: 0 <= b < |p.bases| && p.bases[b] <= a < p.bases[b] + STUB_SIZE * Used(p, b)
  }

  ghost predicate IsStub(p: Pool, a: nat) {
    |p.stubs| <= GUEST_CB_BLOCK * |p.bases| && exists k :: 0 <= k < |p.stubs| && AddressOf(p, k) == a
  }

  predicate Has(p: Pool, k: nat, fn: nat, wide: bool, argc: nat) {
    k < |p.stubs| && p.stubs[k].fn == fn && p.stubs[k].wide == wide && p.stubs[k].argc == argc
  }

  /** The first stub at or after k with this identity, or the number of stubs. */
  function Find(p: Pool, fn: nat, wide: bool, argc: nat, k: nat): (r: nat)
    requires k <= |p.stubs|
    ensures k <= r <= |p.stubs| && (r < |p.stubs| ==> Has(p, r, fn, wide, argc))
    ensures forall j :: k <= j < r ==> !Has(p, j, fn, wide, argc)
    decreases |p.stubs| - k
  {
    if k == |p.stubs| || Has(p, k, fn, wide, argc) then k else Find(p, fn, wide, argc, k + 1)
  }

  predicate Full(p: Pool) { |p.stubs| == GUEST_CB_BLOCK * |p.bases| }

  /** The arguments of one registration, with what the environment answers: the pointer's place and a fresh block. */
  datatype Request = Request(fn: nat, wide: bool, argc: nat, place: Place, block: Fresh, nowrap: bool)

  datatype Fresh = NoMemory | Block(base: nat)

  /**
    What the address space guarantees of one registration: a pointer into the
    pool's blocks is a stub that was handed out, and a fresh block overlaps no
    block, no registered guest function and not the pointer being registered.
   */
  ghost predicate Honest(p: Pool, r: Request) {
    && (forall b :: 0 <= b < |p.bases| && InBlock(p.bases[b], r.fn) ==> Owns(p, r.fn) && IsStub(p, r.fn))
    && (r.block.Block? ==>
      && r.block.base > 0 && !InBlock(r.block.base, r.fn)
      && (forall b, a: nat :: 0 <= b < |p.bases| && InBlock(p.bases[b], a) ==> !InBlock(r.block.base, a))
      && (forall k :: 0 <= k < |p.stubs| ==> !InBlock(r.block.base, p.stubs[k].fn)))
  }

  /** wrap_guest_callback_ex: the new pool, and what native code is given. */
  function Wrap(p: Pool, r: Request, mint: (nat, bool, nat) -> seq<nat>): (Pool, nat)
    requires Filled(p)
  {
    if r.fn == 0 || !Supported(r.argc) || r.nowrap || Owns(p, r.fn) || r.place == NativeImage then (p, r.fn)
    else
      var k := Find(p, r.fn, r.wide, r.argc, 0);
      if k < |p.stubs| then (p, AddressOf(p, k))
      else if Full(p) && (|p.bases| == MAX_GUEST_CB_BLOCKS || r.block.NoMemory?) then (p, r.fn)
      else
        var q := Pool(if Full(p) then p.bases + [r.block.base] else p.bases,
                      p.stubs + [Stub(mint(r.fn, r.wide, r.argc), r.fn, r.wide, r.argc)]);
        (q, AddressOf(q, |p.stubs|))
  }

  /** The first stub at or after k whose first byte is at a, or the number of stubs. */
  function FindBase(p: Pool, a: nat, k: nat): (r: nat)
    requires Filled(p) && k <= |p.stubs|
    ensures k <= r <= |p.stubs| && (r < |p.stubs| ==> AddressOf(p, r) == a)
    ensures forall j :: k <= j < r ==> AddressOf(p, j) != a
    decreases |p.stubs| - k
  {
    if k == |p.stubs| || AddressOf(p, k) == a then k else FindBase(p, a, k + 1)
  }

  /** unwrap_guest_cb: a stub goes back as its target, anything else as itself. */
  function Unwrap(p: Pool, a: nat): nat
    requires Filled(p)
  {
    var k := FindBase(p, a, 0);
    if a != 0 && k < |p.stubs| then p.stubs[k].fn else a
  }

  // ----- what every registration keeps -----

  lemma {:induction false} StubInItsBlock(p: Pool, k: nat)
    requires Filled(p) && k < |p.stubs|
    ensures k / GUEST_CB_BLOCK < |p.bases| && InBlock(p.bases[k / GUEST_CB_BLOCK], AddressOf(p, k))
    ensures k % GUEST_CB_BLOCK < Used(p, k / GUEST_CB_BLOCK) && Owns(p, AddressOf(p, k))
  {
  }

  /** The pool owns an address exactly if it lies in a stub that was handed out. */
  lemma {:induction false} OwnsIff(p: Pool, a: nat)
    requires Filled(p)
    ensures Owns(p, a) <==> exists k: nat :: k < |p.stubs| && AddressOf(p, k) <= a < AddressOf(p, k) + STUB_SIZE
  {
    if Owns(p, a) {
      var b :| 0 <= b < |p.bases| && p.bases[b] <= a < p.bases[b] + STUB_SIZE * Used(p, b);
      var i := (a - p.bases[b]) / STUB_SIZE;
      var k := GUEST_CB_BLOCK * b + i;
      assert i < Used(p, b) <= GUEST_CB_BLOCK && k / GUEST_CB_BLOCK == b && k % GUEST_CB_BLOCK == i;
      assert k < |p.stubs| && AddressOf(p, k) <= a < AddressOf(p, k) + STUB_SIZE;
    } else {
      forall k: nat | k < |p.stubs| ensures !(AddressOf(p, k) <= a < AddressOf(p, k) + STUB_SIZE) { StubInItsBlock(p, k); }
    }
  }

  /** Distinct stubs have distinct addresses. */
  lemma {:induction false} AddressesDistinct(p: Pool, mint: (nat, bool, nat) -> seq<nat>, j: nat, k: nat)
    requires Valid(p, mint) && j < |p.stubs| && k < |p.stubs|
    ensures AddressOf(p, j) == AddressOf(p, k) <==> j == k
  {
    StubInItsBlock(p, j);
    StubInItsBlock(p, k);
    var b, c := j / GUEST_CB_BLOCK, k / GUEST_CB_BLOCK;
    if b < c {
      assert InBlock(p.bases[b], AddressOf(p, j)) ==> !InBlock(p.bases[c], AddressOf(p, j));
    } else if c < b {
      assert InBlock(p.bases[c], AddressOf(p, k)) ==> !InBlock(p.bases[b], AddressOf(p, k));
    }
  }

  /** Issued stubs stay where and what they are. */
  ghost predicate Grows(p: Pool, q: Pool) { p.bases <= q.bases && p.stubs <= q.stubs }

  lemma {:induction false} GrownAddresses(p: Pool, q: Pool, k: nat)
    requires Filled(p) && Filled(q) && Grows(p, q) && k < |p.stubs|
    ensures AddressOf(q, k) == AddressOf(p, k) && q.stubs[k] == p.stubs[k]
  {
  }

  lemma {:induction false} WrapGrows(p: Pool, r: Request, mint: (nat, bool, nat) -> seq<nat>)
    requires Filled(p)
    ensures Filled(Wrap(p, r, mint).0) && Grows(p, Wrap(p, r, mint).0)
  {
  }

  /** Every registration keeps the pool sound: disjoint blocks, one stub per identity, each with its own code. */
  lemma {:induction false} WrapKeepsValid(p: Pool, r: Request, mint: (nat, bool, nat) -> seq<nat>)
    requires Valid(p, mint) && Honest(p, r)
    ensures Valid(Wrap(p, r, mint).0, mint)
  {
    var q := Wrap(p, r, mint).0;
    if q != p {
      var n := |p.stubs|;
      var k := Find(p, r.fn, r.wide, r.argc, 0);
      assert q.stubs[n] == Stub(mint(r.fn, r.wide, r.argc), r.fn, r.wide, r.argc);
      forall i, j | 0 <= i < j < |q.stubs| ensures !SameKey(q.stubs[i], q.stubs[j]) {
        if j == n { assert !Has(p, i, r.fn, r.wide, r.argc); }
      }
      forall i | 0 <= i < |q.stubs| ensures GoodStub(q, q.stubs[i], mint) {
        if i < n { assert GoodStub(p, p.stubs[i], mint); }
      }
      assert forall b, c: nat, a: nat :: 0 <= b < c < |q.bases| && InBlock(q.bases[b], a) ==> !InBlock(q.bases[c], a);
    }
  }

  lemma {:induction false} UnwrapOfStub(p: Pool, mint: (nat, bool, nat) -> seq<nat>, k: nat)
    requires Valid(p, mint) && k < |p.stubs| && AddressOf(p, k) != 0
    ensures Unwrap(p, AddressOf(p, k)) == p.stubs[k].fn
  {
    var a := AddressOf(p, k);
    var j := FindBase(p, a, 0);
    AddressesDistinct(p, mint, j, k);
  }

  lemma {:induction false} UnwrapOutside(p: Pool, a: nat)
    requires Filled(p) && forall b :: 0 <= b < |p.bases| ==> !InBlock(p.bases[b], a)
    ensures Unwrap(p, a) == a && !Owns(p, a)
  {
  }

  // ----- what a registration gives back -----

  lemma {:induction false} NewStub(p: Pool, r: Request, mint: (nat, bool, nat) -> seq<nat>)
    requires Valid(p, mint) && Honest(p, r) && Wrap(p, r, mint).0 != p
    ensures var (q, a) := Wrap(p, r, mint);
            |q.stubs| == |p.stubs| + 1 && a == AddressOf(q, |p.stubs|) > 0 && Has(q, |p.stubs|, r.fn, r.wide, r.argc)
  {
  }

  /** A wrapped pointer is a stub with exactly the identity asked for; the only other answer is the pointer itself. */
  lemma {:induction false} WrapGivesAStub(p: Pool, r: Request, mint: (nat, bool, nat) -> seq<nat>) returns (k: nat)
    requires Valid(p, mint) && Honest(p, r) && Wrap(p, r, mint).1 != r.fn
    ensures var (q, a) := Wrap(p, r, mint);
            Has(q, k, r.fn, r.wide, r.argc) && Filled(q) && a == AddressOf(q, k) > 0
  {
    k := Find(p, r.fn, r.wide, r.argc, 0);
    if k < |p.stubs| {
      StubInItsBlock(p, k);
    } else {
      NewStub(p, r, mint);
    }
  }

  /** A pointer that is not the pool's own lies outside its blocks, also after the registration. */
  lemma {:induction false} OutsideAfter(p: Pool, r: Request, mint: (nat, bool, nat) -> seq<nat>)
    requires Valid(p, mint) && Honest(p, r) && !Owns(p, r.fn)
    ensures var q := Wrap(p, r, mint).0; forall b :: 0 <= b < |q.bases| ==> !InBlock(q.bases[b], r.fn)
  {
  }

  /** Unwrapping undoes wrapping, whatever became of the registration. */
  lemma {:induction false} UnwrapUndoesWrap(p: Pool, r: Request, mint: (nat, bool, nat) -> seq<nat>)
    requires Valid(p, mint) && Honest(p, r) && !Owns(p, r.fn)
    ensures var (q, a) := Wrap(p, r, mint); Filled(q) && Unwrap(q, a) == r.fn
  {
    var (q, a) := Wrap(p, r, mint);
    WrapKeepsValid(p, r, mint);
    if a == r.fn {
      OutsideAfter(p, r, mint);
      UnwrapOutside(q, a);
    } else {
      var k := WrapGivesAStub(p, r, mint);
      UnwrapOfStub(q, mint, k);
    }
  }

  /** Wrapping a trampoline gives it back and changes nothing. */
  lemma {:induction false} WrapOfTrampoline(p: Pool, r: Request, mint: (nat, bool, nat) -> seq<nat>, k: nat)
    requires Valid(p, mint) && k < |p.stubs| && r.fn == AddressOf(p, k)
    ensures Wrap(p, r, mint) == (p, r.fn)
  {
  }

  /** A second registration under the same identity finds the first one's stub, however the pool has grown since. */
  lemma {:induction false} WrapAgainGivesTheSame(p: Pool, r: Request, q: Pool, again: Request, mint: (nat, bool, nat) -> seq<nat>)
    requires Valid(p, mint) && Honest(p, r) && Wrap(p, r, mint).1 != r.fn
    requires Valid(q, mint) && Grows(Wrap(p, r, mint).0, q) && Honest(q, again) && !again.nowrap
    requires again.fn == r.fn && again.wide == r.wide && again.argc == r.argc && again.place == r.place
    ensures Wrap(q, again, mint) == (q, Wrap(p, r, mint).1)
  {
    var k := WrapGivesAStub(p, r, mint);
    var mid := Wrap(p, r, mint).0;
    WrapKeepsValid(p, r, mint);
    GrownAddresses(mid, q, k);
    assert GoodStub(q, q.stubs[k], mint);
    UnwrapOutside(q, again.fn);
    var j := Find(q, again.fn, again.wide, again.argc, 0);
    assert Has(q, k, again.fn, again.wide, again.argc);
    if j != k {
      assert SameKey(q.stubs[if j < k then j else k], q.stubs[if j < k then k else j]);
    }
  }

  /** Two stubs are one exactly when their targets, widths and arities agree. */
  lemma {:induction false} OneStubPerIdentity(p: Pool, mint: (nat, bool, nat) -> seq<nat>, j: nat, k: nat)
    requires Valid(p, mint) && j < |p.stubs| && k < |p.stubs|
    ensures AddressOf(p, j) == AddressOf(p, k) <==> SameKey(p.stubs[j], p.stubs[k])
  {
    AddressesDistinct(p, mint, j, k);
    if j < k { assert !SameKey(p.stubs[j], p.stubs[k]); }
    if k < j { assert !SameKey(p.stubs[k], p.stubs[j]); }
  }

  /** A null pointer, a trampoline of ours and native code are callable as they are. */
  ghost predicate NeedsNone(p: Pool, r: Request) { r.fn == 0 || Owns(p, r.fn) || r.place == NativeImage }

  /**
    Native code is handed back the very pointer, and the pool stays as it is,
    exactly when the pointer needs no stub or one of the other conditions holds.
    In all other cases it is handed a stub, and at most one stub is added.
   */
  lemma {:induction false} WrapIsRawIff(p: Pool, r: Request, mint: (nat, bool, nat) -> seq<nat>)
    requires Valid(p, mint) && Honest(p, r)
    ensures Wrap(p, r, mint).1 == r.fn <==>
            || NeedsNone(p, r) || !(4 <= r.argc <= 9) || r.nowrap
            || ((forall k: nat :: !Has(p, k, r.fn, r.wide, r.argc)) && Full(p)
                && (|p.bases| == MAX_GUEST_CB_BLOCKS || r.block.NoMemory?))
    ensures var (q, a) := Wrap(p, r, mint);
            if a == r.fn then q == p
            else |q.stubs| == |p.stubs| + if exists k: nat :: Has(p, k, r.fn, r.wide, r.argc) then 0 else 1
  {
    var k := Find(p, r.fn, r.wide, r.argc, 0);
    if k < |p.stubs| { StubInItsBlock(p, k); }
  }

  /**
    A call to any stub of a sound pool enters the dispatcher of that stub's
    width and arity, with the native caller's arguments and the stub's own target.
   */
  lemma {:induction false} TrampolineReachesItsTarget(p: Pool, dispatch: (bool, nat) -> nat, k: nat, m: Ppc.Machine)
    requires Valid(p, Minted(dispatch)) && k < |p.stubs| && CallbackStub.StackRoom(m)
    requires p.stubs[k].fn < Ppc.TWO64 && dispatch(p.stubs[k].wide, p.stubs[k].argc) < Ppc.TWO64
    ensures var s := p.stubs[k]; var stop := CallbackStub.Go(m, CallbackStub.Fetch(s.code), 0);
            (stop.op.Bctr? || stop.op.Bctrl?) && CallbackStub.Served(m, stop.m, s.fn, dispatch(s.wide, s.argc), s.argc)
  {
    var s := p.stubs[k];
    assert GoodStub(p, s, Minted(dispatch));
    CallbackStub.DispatcherGetsArgumentsAndTarget(m, s.fn, dispatch(s.wide, s.argc), s.argc);
  }

  // ----- the dispatcher's answer -----

  /** What the dispatcher returns for the guest's RAX; 0 if the guest ended its thread inside the callback. */
  function Result(wide: bool, rax: nat, ended: bool): nat {
    if ended then 0
    else if wide then rax
    else if rax % Ppc.TWO32 < Ppc.TWO32 / 2 then rax % Ppc.TWO32
    else rax % Ppc.TWO32 + (Ppc.TWO64 - Ppc.TWO32)
  }

  /** A 32-bit result arrives as the same number, whatever the guest left above it; a 64-bit one needs the wide form. */
  lemma {:induction false} ResultWidth(rax: nat, v: int)
    requires rax < Ppc.TWO64
    ensures -0x8000_0000 <= v < 0x8000_0000 && rax % Ppc.TWO32 == v % Ppc.TWO32 ==> Result(false, rax, false) == v % Ppc.TWO64
    ensures Result(false, rax, false) == Result(true, rax, false) <==> rax < 0x8000_0000 || rax >= Ppc.TWO64 - 0x8000_0000
  {
  }

  // ----- the pool as the source keeps it -----

  class Trampolines {
    var bases: seq<nat>
    var stubs: seq<Stub>
    const mint: (nat, bool, nat) -> seq<nat>

    constructor (mint: (nat, bool, nat) -> seq<nat>)
      ensures View() == Pool([], []) && this.mint == mint && Valid(View(), mint)
    {
      this.mint := mint;
      bases, stubs := [], [];
    }

    function View(): Pool
      reads this
    {
      Pool(bases, stubs)
    }

    /** guest_cb_owns */
    method OwnsAddress(a: nat) returns (yes: bool)
      ensures yes == Owns(View(), a)
    {
      var b := 0;
      while b < |bases|
        invariant 0 <= b <= |bases|
        invariant forall c :: 0 <= c < b ==> !(bases[c] <= a < bases[c] + STUB_SIZE * Used(View(), c))
      {
        var used := if b + 1 == |bases| then |stubs| - GUEST_CB_BLOCK * b else GUEST_CB_BLOCK;
        if bases[b] <= a < bases[b] + STUB_SIZE * used { return true; }
        b := b + 1;
      }
      return false;
    }

    /** guest_cb_target: the target of the stub whose first byte is at a, 0 if there is none. */
    method Target(a: nat) returns (t: nat)
      requires Valid(View(), mint)
      ensures t == 0 ==> forall k :: 0 <= k < |stubs| ==> AddressOf(View(), k) != a
      ensures t != 0 ==> exists k :: 0 <= k < |stubs| && AddressOf(View(), k) == a && stubs[k].fn == t
    {
      var b := 0;
      while b < |bases|
        invariant 0 <= b <= |bases|
        invariant forall c :: 0 <= c < b ==> !(bases[c] <= a < bases[c] + STUB_SIZE * Used(View(), c))
      {
        var used := if b + 1 == |bases| then |stubs| - GUEST_CB_BLOCK * b else GUEST_CB_BLOCK;
        if bases[b] <= a < bases[b] + STUB_SIZE * used {
          var off := a - bases[b];
          if off % STUB_SIZE != 0 {
            forall k | 0 <= k < |stubs| ensures AddressOf(View(), k) != a { NotInterior(View(), mint, k, a, b); }
            return 0;
          }
          var k := GUEST_CB_BLOCK * b + off / STUB_SIZE;
          assert AddressOf(View(), k) == a;
          assert GoodStub(View(), stubs[k], mint);
          return stubs[k].fn;
        }
        b := b + 1;
      }
      forall k | 0 <= k < |stubs| ensures AddressOf(View(), k) != a { OwnedBlock(View(), k); }
      return 0;
    }

    /** unwrap_guest_cb */
    method UnwrapCallback(a: nat) returns (r: nat)
      requires Valid(View(), mint)
      ensures r == Unwrap(View(), a)
    {
      if a == 0 { return a; }
      var t := Target(a);
      if t == 0 { return a; }
      ghost var k :| 0 <= k < |stubs| && AddressOf(View(), k) == a && stubs[k].fn == t;
      UnwrapOfStub(View(), mint, k);
      return t;
    }

    /** The search for a stub with this identity, across every block. */
    method FindStub(fn: nat, wide: bool, argc: nat) returns (k: nat)
      requires Filled(View())
      ensures k == Find(View(), fn, wide, argc, 0)
    {
      var b := 0;
      while b < |bases|
        invariant 0 <= b <= |bases|
        invariant forall j :: 0 <= j < GUEST_CB_BLOCK * b && j < |stubs| ==> !Has(View(), j, fn, wide, argc)
      {
        var used := if b + 1 == |bases| then |stubs| - GUEST_CB_BLOCK * b else GUEST_CB_BLOCK;
        var i := 0;
        while i < used
          invariant 0 <= i <= used
          invariant forall j :: 0 <= j < GUEST_CB_BLOCK * b + i && j < |stubs| ==> !Has(View(), j, fn, wide, argc)
        {
          k := GUEST_CB_BLOCK * b + i;
          if stubs[k].fn == fn && stubs[k].wide == wide && stubs[k].argc == argc {
            assert Has(View(), k, fn, wide, argc);
            return;
          }
          i := i + 1;
        }
        b := b + 1;
      }
      k := |stubs|;
    }

    /** wrap_guest_callback_ex */
    method WrapCallback(r: Request) returns (ret: nat)
      requires Filled(View())
      modifies this
      ensures (View(), ret) == Wrap(old(View()), r, mint)
    {
      if r.fn == 0 || !Supported(r.argc) || r.nowrap { return r.fn; }
      var owned := OwnsAddress(r.fn);
      if owned || r.place == NativeImage { return r.fn; }
      var k := FindStub(r.fn, r.wide, r.argc);
      if k < |stubs| { return bases[k / GUEST_CB_BLOCK] + STUB_SIZE * (k % GUEST_CB_BLOCK); }
      var count := |stubs| - GUEST_CB_BLOCK * (|bases| - 1);
      if |bases| == 0 || count >= GUEST_CB_BLOCK {
        if |bases| >= MAX_GUEST_CB_BLOCKS { return r.fn; }
        if r.block.NoMemory? { return r.fn; }
        bases := bases + [r.block.base];
        count := 0;
      }
      stubs := stubs + [Stub(mint(r.fn, r.wide, r.argc), r.fn, r.wide, r.argc)];
      return bases[|bases| - 1] + STUB_SIZE * count;
    }
  }

  lemma {:induction false} OwnedBlock(p: Pool, k: nat)
    requires Filled(p) && k < |p.stubs|
    ensures var b := k / GUEST_CB_BLOCK;
            0 <= b < |p.bases| && p.bases[b] <= AddressOf(p, k) < p.bases[b] + STUB_SIZE * Used(p, b)
  {
  }

  /** An address inside a block but not at a multiple of the stub size is no stub's. */
  lemma {:induction false} NotInterior(p: Pool, mint: (nat, bool, nat) -> seq<nat>, k: nat, a: nat, b: nat)
    requires Valid(p, mint) && k < |p.stubs| && b < |p.bases|
    requires InBlock(p.bases[b], a) && (a - p.bases[b]) % STUB_SIZE != 0
    ensures AddressOf(p, k) != a
  {
  }

  // ----- window procedures -----

  /** The shape of win32u's winproc handles. */
  predicate IsHandle(v: nat) { v / Ppc.TWO16 == 0xffff }

  /** wrap_guest_wndproc: a handle passes through, everything else goes through the general wrapper, wide. */
  function WrapWndproc(p: Pool, v: nat, place: Place, block: Fresh, mint: (nat, bool, nat) -> seq<nat>): (Pool, nat)
    requires Filled(p)
  {
    if IsHandle(v) then (p, v)
    else if v != 0 && place == NativeImage then (p, v)
    else Wrap(p, Request(v, true, 4, place, block, false), mint)
  }

  /** unwrap_guest_wndproc */
  function UnwrapWndproc(p: Pool, v: nat): nat
    requires Filled(p)
  {
    if v == 0 || IsHandle(v) then v else Unwrap(p, v)
  }

  /** The pool, the window procedure native user32 holds for each class and window, and those it was told to call. */
  datatype World = World(pool: Pool, procs: map<nat, nat>, called: seq<nat>)

  datatype Event =
    | Install(at: nat, proc: nat, block: Fresh)      // RegisterClass, RegisterClassEx, SetWindowLongPtr by the guest
    | InstallNative(at: nat, proc: nat)              // native code installs a native procedure or a handle
    | Subclass(proc: nat, block: Fresh)              // CallWindowProc by the guest
    | Other(req: Request)                            // any other callback registration

  function Step(w: World, e: Event, place: nat -> Place, mint: (nat, bool, nat) -> seq<nat>): World
    requires Filled(w.pool)
  {
    match e
    case Install(at, proc, block) =>
      var (q, v) := WrapWndproc(w.pool, proc, place(proc), block, mint);
      w.(pool := q, procs := w.procs[at := v])
    case InstallNative(at, proc) => w.(procs := w.procs[at := proc])
    case Subclass(proc, block) =>
      var (q, v) := WrapWndproc(w.pool, proc, place(proc), block, mint);
      w.(pool := q, called := w.called + [v])
    case Other(req) => w.(pool := Wrap(w.pool, req, mint).0)
  }

  /** A procedure that a guest may offer; a handle has a handle's shape. */
  ghost predicate Offered(p: Pool, proc: nat, block: Fresh, place: nat -> Place) {
    Honest(p, Request(proc, true, 4, place(proc), block, false)) && (place(proc) == Winproc ==> IsHandle(proc))
  }

  /** What the address space guarantees of an event, and what native code may install of its own accord. */
  ghost predicate Possible(w: World, e: Event, place: nat -> Place) {
    match e
    case Install(_, proc, block) => Offered(w.pool, proc, block, place)
    case InstallNative(_, proc) => proc == 0 || place(proc) == Winproc || place(proc) == NativeImage
    case Subclass(proc, block) => Offered(w.pool, proc, block, place)
    case Other(req) => Honest(w.pool, req)
  }

  /**
    A procedure that native code is given raw: guest code, of a module or
    generated, at an address that looks like a handle, or guest code that needs
    a stub the pool has no room for.
   */
  ghost predicate Raw(p: Pool, proc: nat, block: Fresh, place: nat -> Place) {
    if IsHandle(proc) then (place(proc) == GuestModule || place(proc) == NoImage) && !IsStub(p, proc)
    else
      && proc != 0 && place(proc) != NativeImage && !Owns(p, proc)
      && (forall k: nat :: !Has(p, k, proc, true, 4))
      && Full(p) && (|p.bases| == MAX_GUEST_CB_BLOCKS || block.NoMemory?)
  }

  ghost predicate GoesRaw(w: World, e: Event, place: nat -> Place) {
    (e.Install? || e.Subclass?) && Raw(w.pool, e.proc, e.block, place)
  }

  /** Native code can call v as a window procedure: none, a handle, its own code, or a trampoline. */
  ghost predicate Callable(p: Pool, v: nat, place: nat -> Place) {
    v == 0 || place(v) == Winproc || place(v) == NativeImage || IsStub(p, v)
  }

  ghost predicate Inv(w: World, place: nat -> Place, mint: (nat, bool, nat) -> seq<nat>) {
    && Valid(w.pool, mint)
    && (forall at :: at in w.procs ==> Callable(w.pool, w.procs[at], place))
    && (forall i :: 0 <= i < |w.called| ==> Callable(w.pool, w.called[i], place))
  }

  lemma {:induction false} GrownCallable(p: Pool, q: Pool, v: nat, place: nat -> Place)
    requires Filled(p) && Filled(q) && Grows(p, q) && Callable(p, v, place)
    ensures Callable(q, v, place)
  {
    if IsStub(p, v) {
      var k :| 0 <= k < |p.stubs| && AddressOf(p, k) == v;
      GrownAddresses(p, q, k);
    }
  }

  /** What wrap_guest_wndproc gives native code is something it can call, exactly unless the procedure goes raw. */
  lemma {:induction false} WndprocIsCallableIff(p: Pool, proc: nat, block: Fresh, place: nat -> Place, mint: (nat, bool, nat) -> seq<nat>)
    requires Valid(p, mint) && Offered(p, proc, block, place)
    ensures var (q, v) := WrapWndproc(p, proc, place(proc), block, mint);
            Valid(q, mint) && Grows(p, q) && (Callable(q, v, place) <==> !Raw(p, proc, block, place))
  {
    var r := Request(proc, true, 4, place(proc), block, false);
    WrapKeepsValid(p, r, mint);
    WrapGrows(p, r, mint);
    if !IsHandle(proc) && proc != 0 && place(proc) != NativeImage {
      if Owns(p, proc) {
        assert IsStub(p, proc) by {
          var b :| 0 <= b < |p.bases| && p.bases[b] <= proc < p.bases[b] + STUB_SIZE * Used(p, b);
          assert InBlock(p.bases[b], proc);
        }
      } else {
        NewProcIsCallableIff(p, proc, block, place, mint);
      }
    }
  }

  lemma {:induction false} NewProcIsCallableIff(p: Pool, proc: nat, block: Fresh, place: nat -> Place, mint: (nat, bool, nat) -> seq<nat>)
    requires Valid(p, mint) && Offered(p, proc, block, place)
    requires !IsHandle(proc) && proc != 0 && place(proc) != NativeImage && !Owns(p, proc)
    ensures var (q, v) := WrapWndproc(p, proc, place(proc), block, mint);
            Callable(q, v, place) <==> !Raw(p, proc, block, place)
  {
    var r := Request(proc, true, 4, place(proc), block, false);
    WrapIsRawIff(p, r, mint);
    if Wrap(p, r, mint).1 != proc {
      var k := WrapGivesAStub(p, r, mint);
    } else if IsStub(p, proc) {
      var k :| 0 <= k < |p.stubs| && AddressOf(p, k) == proc;
      StubInItsBlock(p, k);
    }
  }

  /** An event keeps every procedure that native code holds or was told to call callable, exactly unless it goes raw. */
  lemma {:induction false} StepKeepsInvIff(w: World, e: Event, place: nat -> Place, mint: (nat, bool, nat) -> seq<nat>)
    requires Inv(w, place, mint) && Possible(w, e, place)
    ensures Inv(Step(w, e, place, mint), place, mint) <==> !GoesRaw(w, e, place)
    ensures Grows(w.pool, Step(w, e, place, mint).pool)
  {
    var u := Step(w, e, place, mint);
    match e {
      case Install(at, proc, block) =>
        WndprocIsCallableIff(w.pool, proc, block, place, mint);
        assert at in u.procs;
      case InstallNative(at, proc) =>
      case Subclass(proc, block) =>
        WndprocIsCallableIff(w.pool, proc, block, place, mint);
        assert u.called[|w.called|] == WrapWndproc(w.pool, proc, place(proc), block, mint).1;
      case Other(req) =>
        WrapKeepsValid(w.pool, req, mint);
        WrapGrows(w.pool, req, mint);
    }
    forall at | at in u.procs && at in w.procs && u.procs[at] == w.procs[at] ensures Callable(u.pool, u.procs[at], place) {
      GrownCallable(w.pool, u.pool, w.procs[at], place);
    }
    forall i | 0 <= i < |w.called| ensures Callable(u.pool, w.called[i], place) {
      GrownCallable(w.pool, u.pool, w.called[i], place);
    }
  }

  function Run(w: World, events: seq<Event>, place: nat -> Place, mint: (nat, bool, nat) -> seq<nat>): World
    requires Filled(w.pool)
    decreases |events|
  {
    if events == [] then w
    else
      var u := Step(w, events[0], place, mint);
      WrapGrowsStep(w, events[0], place, mint);
      Run(u, events[1..], place, mint)
  }

  lemma {:induction false} WrapGrowsStep(w: World, e: Event, place: nat -> Place, mint: (nat, bool, nat) -> seq<nat>)
    requires Filled(w.pool)
    ensures Filled(Step(w, e, place, mint).pool) && Grows(w.pool, Step(w, e, place, mint).pool)
  {
  }

  ghost predicate GoodRun(w: World, events: seq<Event>, place: nat -> Place, mint: (nat, bool, nat) -> seq<nat>)
    requires Filled(w.pool)
    decreases |events|
  {
    events != [] ==>
      && Possible(w, events[0], place) && !GoesRaw(w, events[0], place)
      && (WrapGrowsStep(w, events[0], place, mint);
          GoodRun(Step(w, events[0], place, mint), events[1..], place, mint))
  }

  /**
    Over every run of registrations, subclassings and calls in which no
    procedure goes raw, every window procedure native code holds or was told to
    call is one it can call.
   */
  lemma {:induction false} NativeNeverHoldsRawGuestCode(w: World, events: seq<Event>, place: nat -> Place,
                                                        mint: (nat, bool, nat) -> seq<nat>)
    requires Inv(w, place, mint) && GoodRun(w, events, place, mint)
    ensures Inv(Run(w, events, place, mint), place, mint)
    ensures Grows(w.pool, Run(w, events, place, mint).pool)
    decreases |events|
  {
    if events != [] {
      StepKeepsInvIff(w, events[0], place, mint);
      NativeNeverHoldsRawGuestCode(Step(w, events[0], place, mint), events[1..], place, mint);
    }
  }

  lemma {:induction false} GrownUnwrap(p: Pool, q: Pool, mint: (nat, bool, nat) -> seq<nat>, k: nat)
    requires Valid(p, mint) && Valid(q, mint) && Grows(p, q) && k < |p.stubs| && AddressOf(p, k) > 0
    ensures Unwrap(q, AddressOf(p, k)) == p.stubs[k].fn
  {
    GrownAddresses(p, q, k);
    UnwrapOfStub(q, mint, k);
  }

  predicate Installs(e: Event, at: nat) { (e.Install? || e.InstallNative?) && e.at == at }

  lemma {:induction false} UntouchedProc(w: World, events: seq<Event>, at: nat, place: nat -> Place,
                                         mint: (nat, bool, nat) -> seq<nat>)
    requires Filled(w.pool) && at in w.procs && forall i :: 0 <= i < |events| ==> !Installs(events[i], at)
    ensures at in Run(w, events, place, mint).procs && Run(w, events, place, mint).procs[at] == w.procs[at]
    decreases |events|
  {
    if events != [] {
      WrapGrowsStep(w, events[0], place, mint);
      assert !Installs(events[0], at);
      UntouchedProc(Step(w, events[0], place, mint), events[1..], at, place, mint);
    }
  }

  /** Handles, native procedures and null pass through as they are, in both directions, and use no stub. */
  lemma {:induction false} NativeProceduresPassThrough(
      w: World, at: nat, proc: nat, place: nat -> Place, block: Fresh, mint: (nat, bool, nat) -> seq<nat>)
    requires Valid(w.pool, mint) && (proc == 0 || IsHandle(proc) || place(proc) == NativeImage)
    requires forall b :: 0 <= b < |w.pool.bases| ==> !InBlock(w.pool.bases[b], proc)
    ensures WrapWndproc(w.pool, proc, place(proc), block, mint) == (w.pool, proc) && UnwrapWndproc(w.pool, proc) == proc
    ensures var u := Step(w, InstallNative(at, proc), place, mint);
            u == w.(procs := u.procs) && at in u.procs && UnwrapWndproc(u.pool, u.procs[at]) == proc
  {
    UnwrapOutside(w.pool, proc);
  }

  /**
    What the guest installed is what the guest reads back, through any run that
    does not install another: the procedure itself, not the trampoline, while
    native code holds that procedure's wide trampoline.  The one exception is a
    trampoline whose own address looks like a handle.
   */
  lemma {:induction false} GuestReadsBackWhatItInstalled(w: World, at: nat, proc: nat, block: Fresh, events: seq<Event>,
                                      place: nat -> Place, mint: (nat, bool, nat) -> seq<nat>)
    requires Inv(w, place, mint) && GoodRun(w, [Install(at, proc, block)] + events, place, mint)
    requires forall i :: 0 <= i < |events| ==> !Installs(events[i], at)
    requires !Owns(w.pool, proc) && (proc != 0 && place(proc) != NativeImage && !IsHandle(proc))
    ensures var u := Run(w, [Install(at, proc, block)] + events, place, mint);
            && at in u.procs && Filled(u.pool)
            && (UnwrapWndproc(u.pool, u.procs[at]) == proc <==> !IsHandle(u.procs[at]))
            && exists k: nat :: Has(u.pool, k, proc, true, 4) && u.procs[at] == AddressOf(u.pool, k)
  {
    var all := [Install(at, proc, block)] + events;
    assert all[0] == Install(at, proc, block) && all[1..] == events;
    var r := Request(proc, true, 4, place(proc), block, false);
    var mid := Step(w, all[0], place, mint);
    StepKeepsInvIff(w, all[0], place, mint);
    NativeNeverHoldsRawGuestCode(mid, events, place, mint);
    UntouchedProc(mid, events, at, place, mint);
    WrapIsRawIff(w.pool, r, mint);
    var k := WrapGivesAStub(w.pool, r, mint);
    GrownUnwrap(mid.pool, Run(mid, events, place, mint).pool, mint, k);
    GrownAddresses(mid.pool, Run(mid, events, place, mint).pool, k);
    assert Has(Run(mid, events, place, mint).pool, k, proc, true, 4);
  }

  const EMPTY: World := World(Pool([], []), map[], [])

  /** A guest procedure whose address looks like a handle, in a module or generated, is installed, and called, as it is. */
  lemma {:induction false} HandleShapedProcedureGoesRaw(block: Fresh, place: nat -> Place, mint: (nat, bool, nat) -> seq<nat>)
    requires place(0xffff1230) == GuestModule || place(0xffff1230) == NoImage
    ensures Inv(EMPTY, place, mint)
    ensures var u := Step(EMPTY, Install(7, 0xffff1230, block), place, mint);
            u.procs[7] == 0xffff1230 && !Callable(u.pool, u.procs[7], place)
    ensures var u := Step(EMPTY, Subclass(0xffff1230, block), place, mint);
            u.called == [0xffff1230] && !Callable(u.pool, u.called[0], place)
  {
  }

  /** A block of stubs in the handles' range: the guest reads back the trampoline, not what it installed. */
  lemma {:induction false} TrampolineShapedLikeAHandle(place: nat -> Place, mint: (nat, bool, nat) -> seq<nat>)
    requires place(0x1000) == GuestModule
    ensures var e := Install(7, 0x1000, Block(0xffff0000)); var u := Step(EMPTY, e, place, mint);
            && Possible(EMPTY, e, place) && !GoesRaw(EMPTY, e, place)
            && Filled(u.pool) && Has(u.pool, 0, 0x1000, true, 4) && AddressOf(u.pool, 0) == u.procs[7]
            && UnwrapWndproc(u.pool, u.procs[7]) == 0xffff0000
  {
  }
}
