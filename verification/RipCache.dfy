/**
  The lock-free cache that maps a trapping guest address (RIP) to the native
  function it stands for (dlls/ntdll/signal_ppc64.c, "thunk_rip_cache").

  Each slot is published with a seqlock.  Writers hold the loader lock, so at
  most one of them is inside the cache; readers hold nothing.  Every access to
  shared memory below is its own step, and the steps of one writer and of any
  number of readers interleave freely.  The fences order the payload accesses
  between the two accesses to the sequence word and leave their order among
  themselves open, so the payload loads and stores come in any order here.
 */
module RipCache {

  const SLOTS: nat := 1024                 // THUNK_RIP_CACHE_SIZE
  const FIELDS: nat := 17                  // payload words the get and the put name
  const SEQ_MOD: nat := 0x1_0000_0000      // the sequence word is 32 bits

  // Indices of the payload words that the flush clears.
  const RIP: nat := 0
  const PROC: nat := 1
  const OVERRIDE: nat := 3
  const COM_DISPATCH: nat := 13

  type Entry = seq<nat>

  datatype Option<+T> = None | Some(value: T)

  /** The hash of thunk_rip_cache_slot. */
  function Hash(rip: bv64): (h: bv64)
    ensures h < 1024
  {
    var h0 := rip >> 3;
    var h1 := h0 ^ (h0 >> 17);
    var h2 := h1 ^ (h1 >> 31);
    h2 & 1023
  }

  function SlotOf(rip: nat): (i: nat)
    ensures i < SLOTS
  {
    Hash((rip % 0x1_0000_0000_0000_0000) as bv64) as nat
  }

  /**
    `count` is the sequence word without its wrap-around: a store of s + 1 or
    s + 2 counts on, and a load sees the low 32 bits, Word(slot).
   */
  datatype Slot = Slot(count: nat, fields: Entry)

  function Word(slot: Slot): nat { slot.count % SEQ_MOD }

  /** What the holder of the loader lock is doing in the cache. */
  datatype Writer =
    | Idle
    | Put(rip: nat, s: nat, left: set<nat>)
    | FlushScan(next: nat)
    | FlushClear(slot: nat, s: nat, left: set<nat>)

  /** `since` and `snap` record the slot as the first sequence read saw it; history only. */
  datatype Reader =
    | Resting
    | Loading(rip: nat, s1: nat, got: map<nat, nat>, since: nat, snap: Entry)
    | Answered(asked: nat, hit: Option<Entry>)

  /**
    `home` is the hash, any function into the slots; SlotOf is the one the source uses.
    `truth` is what resolving an address under the loader lock answers now.
   */
  datatype State = State(
    home: nat -> nat, slots: seq<Slot>, writer: Writer, readers: seq<Reader>, truth: map<nat, Entry>)

  datatype Action =
    | Map(at: nat, answer: Entry)   // a module is mapped: one of its stubs resolves
    | PutBegin(rip: nat)
    | PutStore(f: nat)
    | PutEnd
    | FlushBegin
    | FlushSkip
    | FlushOpen
    | FlushStore(f: nat)
    | FlushClose
    | Unmap(gone: set<nat>)         // the view goes after the flush, still under the lock
    | ReadBegin(t: nat, asked: nat)
    | ReadLoad(t: nat, f: nat)
    | ReadEnd(t: nat)

  function FieldsBelow(n: nat): (fs: set<nat>)
    ensures forall f: nat :: f in fs <==> f < n
  {
    if n == 0 then {} else FieldsBelow(n - 1) + {n - 1}
  }

  function AllFields(): set<nat> { FieldsBelow(FIELDS) }

  function Cleared(): set<nat> { {RIP, PROC, OVERRIDE, COM_DISPATCH} }

  function Bump(slot: Slot): Slot {
    slot.(count := slot.count + 1)
  }

  function SetField(slot: Slot, f: nat, v: nat): Slot
    requires f < |slot.fields|
  {
    slot.(fields := slot.fields[f := v])
  }

  ghost predicate Shaped(s: State) {
    && |s.slots| == SLOTS
    && (forall r :: s.home(r) < SLOTS)
    && (forall i :: 0 <= i < SLOTS ==> |s.slots[i].fields| == FIELDS)
    && (forall r :: r in s.truth ==> r != 0 && |s.truth[r]| == FIELDS && s.truth[r][RIP] == r)
    && (s.writer.Put? ==> s.writer.rip in s.truth && s.writer.left <= AllFields())
    && (s.writer.FlushScan? ==> s.writer.next <= SLOTS)
    && (s.writer.FlushClear? ==> s.writer.slot < SLOTS && s.writer.left <= Cleared())
  }

  ghost predicate Enabled(s: State, a: Action)
    requires Shaped(s)
  {
    match a
    case Map(at, answer) =>
      s.writer.Idle? && at != 0 && at !in s.truth && |answer| == FIELDS && answer[RIP] == at
    case PutBegin(rip) => s.writer.Idle? && rip in s.truth
    case PutStore(f) => s.writer.Put? && f in s.writer.left
    case PutEnd => s.writer.Put? && s.writer.left == {}
    case FlushBegin => s.writer.Idle?
    case FlushSkip => s.writer.FlushScan? && s.writer.next < SLOTS && s.slots[s.writer.next].fields[RIP] == 0
    case FlushOpen => s.writer.FlushScan? && s.writer.next < SLOTS && s.slots[s.writer.next].fields[RIP] != 0
    case FlushStore(f) => s.writer.FlushClear? && f in s.writer.left
    case FlushClose => s.writer.FlushClear? && s.writer.left == {}
    case Unmap(_) => s.writer.FlushScan? && s.writer.next == SLOTS
    case ReadBegin(t, _) => t < |s.readers| && !s.readers[t].Loading?
    case ReadLoad(t, f) => t < |s.readers| && s.readers[t].Loading? && f < FIELDS && f !in s.readers[t].got
    case ReadEnd(t) => t < |s.readers| && s.readers[t].Loading? && s.readers[t].got.Keys == AllFields()
  }

  /** The tail of thunk_rip_cache_get: recheck the sequence word, then the key. */
  ghost function Answer(slot: Slot, r: Reader): Option<Entry>
    requires r.Loading? && r.got.Keys == AllFields()
  {
    if r.s1 != Word(slot) then None
    else if r.got[RIP] != r.rip then None
    else if r.got[RIP] == 0 then None
    else Some(seq(FIELDS, f requires 0 <= f < FIELDS => r.got[f]))
  }

  ghost function Next(s: State, a: Action): State
    requires Shaped(s) && Enabled(s, a)
  {
    match a
    case Map(at, answer) => s.(truth := s.truth[at := answer])
    case PutBegin(rip) =>
      var i := s.home(rip);
      if Word(s.slots[i]) % 2 == 1 then s else
      s.(slots := s.slots[i := Bump(s.slots[i])], writer := Put(rip, s.slots[i].count, AllFields()))
    case PutStore(f) =>
      var i := s.home(s.writer.rip);
      s.(slots := s.slots[i := SetField(s.slots[i], f, s.truth[s.writer.rip][f])],
         writer := Put(s.writer.rip, s.writer.s, s.writer.left - {f}))
    case PutEnd =>
      var i := s.home(s.writer.rip);
      s.(slots := s.slots[i := s.slots[i].(count := s.writer.s + 2)],
         writer := Idle)
    case FlushBegin => s.(writer := FlushScan(0))
    case FlushSkip => s.(writer := FlushScan(s.writer.next + 1))
    case FlushOpen =>
      var i := s.writer.next;
      s.(slots := s.slots[i := Bump(s.slots[i])], writer := FlushClear(i, s.slots[i].count, Cleared()))
    case FlushStore(f) =>
      var i := s.writer.slot;
      s.(slots := s.slots[i := SetField(s.slots[i], f, 0)], writer := FlushClear(i, s.writer.s, s.writer.left - {f}))
    case FlushClose =>
      var i := s.writer.slot;
      s.(slots := s.slots[i := s.slots[i].(count := s.writer.s + 2)],
         writer := FlushScan(i + 1))
    case Unmap(gone) => s.(truth := s.truth - gone, writer := Idle)
    case ReadBegin(t, asked) =>
      var slot := s.slots[s.home(asked)];
      s.(readers := s.readers[t :=
           if Word(slot) % 2 == 1 then Answered(asked, None)
           else Loading(asked, Word(slot), map[], slot.count, slot.fields)])
    case ReadLoad(t, f) =>
      var r := s.readers[t];
      s.(readers := s.readers[t := r.(got := r.got[f := s.slots[s.home(r.rip)].fields[f]])])
    case ReadEnd(t) =>
      var r := s.readers[t];
      s.(readers := s.readers[t := Answered(r.rip, Answer(s.slots[s.home(r.rip)], r))])
  }

  // ----- what every step keeps -----

  /** A slot no writer is inside holds nothing, or one whole answer filed where its key hashes. */
  ghost predicate Clean(s: State, i: nat, fields: Entry)
    requires |fields| == FIELDS
  {
    fields[RIP] == 0 ||
    (fields[RIP] in s.truth && fields == s.truth[fields[RIP]] && s.home(fields[RIP]) == i)
  }

  ghost predicate Inside(s: State, i: nat) {
    (s.writer.Put? && s.home(s.writer.rip) == i) || (s.writer.FlushClear? && s.writer.slot == i)
  }

  ghost predicate SlotInv(s: State, i: nat)
    requires Shaped(s) && i < SLOTS
  {
    var slot := s.slots[i];
    && (slot.count % 2 == 1 <==> Inside(s, i))
    && (slot.count % 2 == 0 ==> Clean(s, i, slot.fields))
  }

  ghost predicate Emptied(s: State, n: nat)
    requires Shaped(s) && n <= SLOTS
  {
    forall j :: 0 <= j < n ==> s.slots[j].fields[RIP] == 0
  }

  ghost predicate WriterInv(s: State)
    requires Shaped(s)
  {
    match s.writer
    case Idle => true
    case Put(rip, s0, left) =>
      var slot := s.slots[s.home(rip)];
      && s0 + 1 == slot.count
      && (forall f :: 0 <= f < FIELDS && f !in left ==> slot.fields[f] == s.truth[rip][f])
    case FlushScan(next) => Emptied(s, next)
    case FlushClear(i, s0, left) =>
      && s0 + 1 == s.slots[i].count
      && (RIP !in left ==> s.slots[i].fields[RIP] == 0)
      && Emptied(s, i)
  }

  /** While the slot has not been written since the first sequence read, what was loaded is the snapshot. */
  ghost predicate ReaderInv(s: State, t: nat)
    requires Shaped(s) && t < |s.readers|
  {
    var r := s.readers[t];
    r.Loading? ==>
      var slot := s.slots[s.home(r.rip)];
      && r.since % 2 == 0
      && r.s1 == r.since % SEQ_MOD
      && r.since <= slot.count
      && r.got.Keys <= AllFields()
      && |r.snap| == FIELDS
      && (slot.count == r.since ==>
            slot.fields == r.snap && forall f :: f in r.got ==> r.got[f] == r.snap[f])
  }

  ghost predicate Inv(s: State) {
    && Shaped(s)
    && (forall i :: 0 <= i < SLOTS ==> SlotInv(s, i))
    && WriterInv(s)
    && (forall t :: 0 <= t < |s.readers| ==> ReaderInv(s, t))
  }

  lemma {:induction false} WordParity(n: nat)
    ensures (n % SEQ_MOD) % 2 == n % 2
  {}

  /** What a step owes the readers: it moves a slot's payload only while its count is odd or moves its count on. */
  ghost predicate Fair(s: State, n: State)
    requires Shaped(s) && Shaped(n)
  {
    && n.home == s.home
    && forall i :: 0 <= i < SLOTS ==>
         || n.slots[i] == s.slots[i]
         || s.slots[i].count < n.slots[i].count
         || (n.slots[i].count == s.slots[i].count && s.slots[i].count % 2 == 1)
  }

  lemma {:induction false} FairKeepsReaders(s: State, n: State)
    requires Inv(s) && Shaped(n) && Fair(s, n) && n.readers == s.readers
    ensures forall t :: 0 <= t < |n.readers| ==> ReaderInv(n, t)
  {
    forall t | 0 <= t < |n.readers| ensures ReaderInv(n, t) {
      assert ReaderInv(s, t);
    }
  }

  /** A writer's step at slot i. */
  lemma {:induction false} PutBeginKeepsInv(s: State, rip: nat)
    requires Inv(s) && Enabled(s, PutBegin(rip))
    ensures Inv(Next(s, PutBegin(rip)))
  {
    var i := s.home(rip);
    var n := Next(s, PutBegin(rip));
    assert SlotInv(s, i);
    WordParity(s.slots[i].count);
    assert n.slots == s.slots[i := Bump(s.slots[i])];
    forall j | 0 <= j < SLOTS ensures SlotInv(n, j) {
      assert SlotInv(s, j);
    }
    FairKeepsReaders(s, n);
  }

  lemma {:induction false} PutStoreKeepsInv(s: State, f: nat)
    requires Inv(s) && Enabled(s, PutStore(f))
    ensures Inv(Next(s, PutStore(f)))
  {
    var i := s.home(s.writer.rip);
    var n := Next(s, PutStore(f));
    assert SlotInv(s, i);
    assert n.slots == s.slots[i := SetField(s.slots[i], f, s.truth[s.writer.rip][f])];
    forall j | 0 <= j < SLOTS ensures SlotInv(n, j) {
      assert SlotInv(s, j);
    }
    FairKeepsReaders(s, n);
  }

  lemma {:induction false} PutEndKeepsInv(s: State)
    requires Inv(s) && Enabled(s, PutEnd)
    ensures Inv(Next(s, PutEnd))
  {
    var i := s.home(s.writer.rip);
    var n := Next(s, PutEnd);
    assert n.slots == s.slots[i := s.slots[i].(count := s.writer.s + 2)];
    assert s.slots[i].fields == s.truth[s.writer.rip];
    forall j | 0 <= j < SLOTS ensures SlotInv(n, j) {
      assert SlotInv(s, j);
    }
    FairKeepsReaders(s, n);
  }

  lemma {:induction false} FlushScanKeepsInv(s: State, a: Action)
    requires Inv(s) && Enabled(s, a)
    requires a.FlushBegin? || a.FlushSkip?
    ensures Inv(Next(s, a))
  {
    var n := Next(s, a);
    forall j | 0 <= j < SLOTS ensures SlotInv(n, j) {
      assert SlotInv(s, j);
    }
    FairKeepsReaders(s, n);
  }

  lemma {:induction false} FlushOpenKeepsInv(s: State)
    requires Inv(s) && Enabled(s, FlushOpen)
    ensures Inv(Next(s, FlushOpen))
  {
    var i := s.writer.next;
    var n := Next(s, FlushOpen);
    assert SlotInv(s, i);
    forall j | 0 <= j < SLOTS ensures SlotInv(n, j) {
      assert SlotInv(s, j);
    }
    FairKeepsReaders(s, n);
  }

  lemma {:induction false} FlushStoreKeepsInv(s: State, f: nat)
    requires Inv(s) && Enabled(s, FlushStore(f))
    ensures Inv(Next(s, FlushStore(f)))
  {
    var n := Next(s, FlushStore(f));
    assert SlotInv(s, s.writer.slot);
    forall j | 0 <= j < SLOTS ensures SlotInv(n, j) {
      assert SlotInv(s, j);
    }
    FairKeepsReaders(s, n);
  }

  lemma {:induction false} FlushCloseKeepsInv(s: State)
    requires Inv(s) && Enabled(s, FlushClose)
    ensures Inv(Next(s, FlushClose))
  {
    var i := s.writer.slot;
    var n := Next(s, FlushClose);
    assert SlotInv(s, i);
    forall j | 0 <= j < SLOTS ensures SlotInv(n, j) {
      assert SlotInv(s, j);
    }
    FairKeepsReaders(s, n);
  }

  lemma {:induction false} MapKeepsInv(s: State, at: nat, answer: Entry)
    requires Inv(s) && Enabled(s, Map(at, answer))
    ensures Inv(Next(s, Map(at, answer)))
  {
    var n := Next(s, Map(at, answer));
    assert n.truth == s.truth[at := answer];
    forall r | r in n.truth ensures r != 0 && |n.truth[r]| == FIELDS && n.truth[r][RIP] == r {
      assert r == at || (r in s.truth && n.truth[r] == s.truth[r]);
    }
    forall j | 0 <= j < SLOTS ensures SlotInv(n, j) {
      assert SlotInv(s, j);
    }
    FairKeepsReaders(s, n);
  }

  lemma {:induction false} UnmapKeepsInv(s: State, gone: set<nat>)
    requires Inv(s) && Enabled(s, Unmap(gone))
    ensures Inv(Next(s, Unmap(gone)))
  {
    var n := Next(s, Unmap(gone));
    assert n.truth == s.truth - gone;
    forall r | r in n.truth ensures r != 0 && |n.truth[r]| == FIELDS && n.truth[r][RIP] == r {
      assert r in s.truth && n.truth[r] == s.truth[r];
    }
    forall j | 0 <= j < SLOTS ensures SlotInv(n, j) {
      assert SlotInv(s, j);
    }
    FairKeepsReaders(s, n);
  }

  lemma {:induction false} ReadBeginKeepsInv(s: State, t: nat, asked: nat)
    requires Inv(s) && Enabled(s, ReadBegin(t, asked))
    ensures Inv(Next(s, ReadBegin(t, asked)))
  {
    var n := Next(s, ReadBegin(t, asked));
    forall j | 0 <= j < SLOTS ensures SlotInv(n, j) {
      assert SlotInv(s, j);
    }
    forall u | 0 <= u < |n.readers| ensures ReaderInv(n, u) {
      if u != t {
        assert n.readers[u] == s.readers[u];
        assert ReaderInv(s, u);
      } else {
        assert SlotInv(s, s.home(asked));
        WordParity(s.slots[s.home(asked)].count);
      }
    }
  }

  lemma {:induction false} ReadLoadKeepsInv(s: State, t: nat, f: nat)
    requires Inv(s) && Enabled(s, ReadLoad(t, f))
    ensures Inv(Next(s, ReadLoad(t, f)))
  {
    var n := Next(s, ReadLoad(t, f));
    forall j | 0 <= j < SLOTS ensures SlotInv(n, j) {
      assert SlotInv(s, j);
    }
    forall u | 0 <= u < |n.readers| ensures ReaderInv(n, u) {
      assert ReaderInv(s, u);
      if u != t { assert n.readers[u] == s.readers[u]; }
    }
  }

  lemma {:induction false} ReadEndKeepsInv(s: State, t: nat)
    requires Inv(s) && Enabled(s, ReadEnd(t))
    ensures Inv(Next(s, ReadEnd(t)))
  {
    var n := Next(s, ReadEnd(t));
    forall j | 0 <= j < SLOTS ensures SlotInv(n, j) {
      assert SlotInv(s, j);
    }
    forall u | 0 <= u < |n.readers| ensures ReaderInv(n, u) {
      assert ReaderInv(s, u);
      if u != t { assert n.readers[u] == s.readers[u]; }
    }
  }

  /** Every step of the writer, the loader or any reader keeps the invariant. */
  lemma {:induction false} StepKeepsInv(s: State, a: Action)
    requires Inv(s) && Enabled(s, a)
    ensures Inv(Next(s, a))
  {
    match a
    case Map(at, answer) => MapKeepsInv(s, at, answer);
    case Unmap(gone) => UnmapKeepsInv(s, gone);
    case PutBegin(rip) => PutBeginKeepsInv(s, rip);
    case PutStore(f) => PutStoreKeepsInv(s, f);
    case PutEnd => PutEndKeepsInv(s);
    case FlushBegin => FlushScanKeepsInv(s, a);
    case FlushSkip => FlushScanKeepsInv(s, a);
    case FlushOpen => FlushOpenKeepsInv(s);
    case FlushStore(f) => FlushStoreKeepsInv(s, f);
    case FlushClose => FlushCloseKeepsInv(s);
    case ReadBegin(t, asked) => ReadBeginKeepsInv(s, t, asked);
    case ReadLoad(t, f) => ReadLoadKeepsInv(s, t, f);
    case ReadEnd(t) => ReadEndKeepsInv(s, t);
  }

  // ----- whole runs -----

  /** n is what s becomes by these steps, each of them enabled when it is taken. */
  ghost predicate Run(s: State, acts: seq<Action>, n: State)
    decreases |acts|
  {
    if acts == [] then s == n
    else Shaped(s) && Enabled(s, acts[0]) && Run(Next(s, acts[0]), acts[1..], n)
  }

  ghost predicate Init(s: State) {
    && Shaped(s)
    && s.writer.Idle?
    && (forall i :: 0 <= i < SLOTS ==> s.slots[i].count == 0 && s.slots[i].fields[RIP] == 0)
    && (forall t :: 0 <= t < |s.readers| ==> s.readers[t].Resting?)
  }

  lemma {:induction false} RunKeepsInv(s: State, acts: seq<Action>, n: State)
    requires Inv(s) && Run(s, acts, n)
    ensures Inv(n)
    decreases |acts|
  {
    if acts != [] {
      StepKeepsInv(s, acts[0]);
      RunKeepsInv(Next(s, acts[0]), acts[1..], n);
    }
  }

  lemma {:induction false} InitInv(s: State)
    requires Init(s)
    ensures Inv(s)
  {}

  /** How many stores to the slot's sequence word this reader's two sequence reads enclose. */
  ghost function Enclosed(n: State, t: nat): int
    requires Shaped(n) && t < |n.readers| && n.readers[t].Loading?
  {
    n.slots[n.home(n.readers[t].rip)].count - n.readers[t].since
  }

  /** Reader t has come back with this answer to `asked`, and nothing else has changed. */
  ghost predicate Gets(n: State, u: State, t: nat, asked: nat, hit: Option<Entry>)
    requires t < |n.readers|
  {
    u == n.(readers := n.readers[t := Answered(asked, hit)])
  }

  lemma {:induction false} WholeSnapshot(n: State, t: nat)
    requires Inv(n) && Enabled(n, ReadEnd(t)) && Enclosed(n, t) == 0
    ensures var r := n.readers[t]; var slot := n.slots[n.home(r.rip)];
            && seq(FIELDS, f requires 0 <= f < FIELDS => r.got[f]) == slot.fields
            && r.got[RIP] == slot.fields[RIP]
  {
    assert ReaderInv(n, t);
    var r := n.readers[t];
    assert forall f :: 0 <= f < FIELDS ==> r.got[f] == r.snap[f];
  }

  /** What the slot holds for this address, if it is held there. */
  ghost function Held(n: State, rip: nat): Option<Entry>
    requires Shaped(n)
  {
    if rip in n.truth && n.slots[n.home(rip)].fields[RIP] == rip then Some(n.truth[rip]) else None
  }

  lemma {:induction false} UndisturbedAnswers(n: State, t: nat)
    requires Inv(n) && Enabled(n, ReadEnd(t)) && Enclosed(n, t) == 0
    ensures Answer(n.slots[n.home(n.readers[t].rip)], n.readers[t]) == Held(n, n.readers[t].rip)
  {
    var i := n.home(n.readers[t].rip);
    assert ReaderInv(n, t);
    assert SlotInv(n, i);
    WholeSnapshot(n, t);
  }

  lemma {:induction false} DisturbedMisses(n: State, t: nat)
    requires Inv(n) && Enabled(n, ReadEnd(t)) && Enclosed(n, t) % SEQ_MOD != 0
    ensures Answer(n.slots[n.home(n.readers[t].rip)], n.readers[t]) == None
  {
    var r := n.readers[t];
    assert ReaderInv(n, t);
    if r.s1 == Word(n.slots[n.home(r.rip)]) { SameWord(r.since, n.slots[n.home(r.rip)].count); }
  }

  /**
    A read that completes hands its caller exactly what a locked lookup of that
    slot would at the instant of its second sequence read: the whole resolved
    answer when the slot holds the asked address and no writer came by, a miss
    otherwise.  This holds in every interleaving, unless the stores to the slot's
    sequence word between the reader's two reads of it are a nonzero multiple of 2^32.
   */
  lemma {:induction false} ReadAnswersTruth(s: State, acts: seq<Action>, n: State, t: nat)
    requires Init(s) && Run(s, acts, n)
    requires Shaped(n) && Enabled(n, ReadEnd(t)) && (Enclosed(n, t) == 0 || Enclosed(n, t) % SEQ_MOD != 0)
    ensures var r := n.readers[t];
            Gets(n, Next(n, ReadEnd(t)), t, r.rip,
                 if Enclosed(n, t) == 0 && r.rip in n.truth && n.slots[n.home(r.rip)].fields[RIP] == r.rip
                 then Some(n.truth[r.rip]) else None)
  {
    InitInv(s);
    RunKeepsInv(s, acts, n);
    if Enclosed(n, t) == 0 { UndisturbedAnswers(n, t); } else { DisturbedMisses(n, t); }
  }

  /**
    And a read begins, with nothing loaded and no store passed by, exactly
    unless a writer is inside the slot.  Then it misses at once.
   */
  lemma {:induction false} ReadBeginsUnlessWriting(s: State, acts: seq<Action>, n: State, t: nat, asked: nat)
    requires Init(s) && Run(s, acts, n) && Shaped(n) && Enabled(n, ReadBegin(t, asked))
    ensures var u := Next(n, ReadBegin(t, asked));
            if Inside(n, n.home(asked)) then Gets(n, u, t, asked, None)
            else
              && Shaped(u) && |u.readers| == |n.readers| && u == n.(readers := n.readers[t := u.readers[t]])
              && u.readers[t].Loading? && u.readers[t].rip == asked && u.readers[t].got == map[] && Enclosed(u, t) == 0
  {
    InitInv(s);
    RunKeepsInv(s, acts, n);
    assert SlotInv(n, n.home(asked));
    WordParity(n.slots[n.home(asked)].count);
  }

  lemma {:induction false} SameWord(a: nat, b: nat)
    requires a <= b && a % SEQ_MOD == b % SEQ_MOD
    ensures (b - a) % SEQ_MOD == 0
  {}

  // ----- the bound is needed: 2^32 stores inside one read go unnoticed -----

  lemma {:induction false} RunCons(s: State, a: Action, rest: seq<Action>, n: State)
    requires Shaped(s) && Enabled(s, a) && Run(Next(s, a), rest, n)
    ensures Run(s, [a] + rest, n)
  {
  }

  lemma {:induction false} RunAppend(s: State, a: seq<Action>, m: State, b: seq<Action>, n: State)
    requires Run(s, a, m) && Run(m, b, n)
    ensures Run(s, a + b, n)
    decreases |a|
  {
    if a == [] {
      assert a + b == b;
    } else {
      RunAppend(Next(s, a[0]), a[1..], m, b, n);
      assert (a + b)[1..] == a[1..] + b;
    }
  }

  /** The writer's remaining stores, lowest field first. */
  lemma {:induction false} StoreRun(s: State, k: nat) returns (acts: seq<Action>, n: State)
    requires Inv(s) && s.writer.Put? && k <= FIELDS && s.writer.left == AllFields() - FieldsBelow(k)
    ensures Run(s, acts, n) && Inv(n)
    ensures n.writer == Put(s.writer.rip, s.writer.s, {})
    ensures n.home == s.home && n.readers == s.readers && n.truth == s.truth
    decreases FIELDS - k
  {
    if k == FIELDS {
      acts, n := [], s;
    } else {
      var m := Next(s, PutStore(k));
      StepKeepsInv(s, PutStore(k));
      assert m.writer.left == AllFields() - FieldsBelow(k + 1);
      var rest;
      rest, n := StoreRun(m, k + 1);
      RunCons(s, PutStore(k), rest, n);
      acts := [PutStore(k)] + rest;
    }
  }

  lemma {:induction false} OpenPut(s: State, rip: nat) returns (m: State)
    requires Inv(s) && s.writer.Idle? && rip in s.truth
    ensures Enabled(s, PutBegin(rip)) && m == Next(s, PutBegin(rip)) && Inv(m)
    ensures m.home == s.home && m.readers == s.readers && m.truth == s.truth
    ensures m.writer == Put(rip, s.slots[s.home(rip)].count, AllFields() - FieldsBelow(0))
  {
    assert SlotInv(s, s.home(rip));
    WordParity(s.slots[s.home(rip)].count);
    m := Next(s, PutBegin(rip));
    StepKeepsInv(s, PutBegin(rip));
    assert AllFields() - FieldsBelow(0) == AllFields();
  }

  lemma {:induction false} ClosePut(q: State) returns (n: State)
    requires Inv(q) && q.writer.Put? && q.writer.left == {}
    ensures Enabled(q, PutEnd) && n == Next(q, PutEnd) && Inv(n) && n.writer.Idle?
    ensures n.home == q.home && n.readers == q.readers && n.truth == q.truth
    ensures n.slots[q.home(q.writer.rip)].count == q.writer.s + 2
    ensures n.slots[q.home(q.writer.rip)].fields == q.truth[q.writer.rip]
  {
    n := Next(q, PutEnd);
    StepKeepsInv(q, PutEnd);
    assert q.slots[q.home(q.writer.rip)].fields == q.truth[q.writer.rip];
  }

  /** One whole put: the slot ends up holding the answer, two counts on. */
  lemma {:induction false} PutRun(s: State, rip: nat) returns (acts: seq<Action>, n: State)
    requires Inv(s) && s.writer.Idle? && rip in s.truth
    ensures Run(s, acts, n) && Inv(n) && n.writer.Idle?
    ensures n.home == s.home && n.readers == s.readers && n.truth == s.truth
    ensures n.slots[n.home(rip)].count == s.slots[s.home(rip)].count + 2
    ensures n.slots[n.home(rip)].fields == s.truth[rip]
  {
    var m := OpenPut(s, rip);
    var stores, q := StoreRun(m, 0);
    n := ClosePut(q);
    assert Run(q, [PutEnd], n);
    RunAppend(m, stores, q, [PutEnd], n);
    RunCons(s, PutBegin(rip), stores + [PutEnd], n);
    acts := [PutBegin(rip)] + (stores + [PutEnd]);
  }

  lemma {:induction false} PutRuns(s: State, rip: nat, k: nat) returns (acts: seq<Action>, n: State)
    requires Inv(s) && s.writer.Idle? && rip in s.truth && k > 0
    ensures Run(s, acts, n) && Inv(n) && n.writer.Idle?
    ensures n.home == s.home && n.readers == s.readers && n.truth == s.truth
    ensures n.slots[n.home(rip)].count == s.slots[s.home(rip)].count + 2 * k
    ensures n.slots[n.home(rip)].fields == s.truth[rip]
    decreases k
  {
    acts, n := PutRun(s, rip);
    if k > 1 {
      var rest, q := PutRuns(n, rip, k - 1);
      RunAppend(s, acts, n, rest, q);
      acts, n := acts + rest, q;
    }
  }

  lemma {:induction false} LoadOne(s: State, t: nat, f: nat) returns (m: State)
    requires Inv(s) && Enabled(s, ReadLoad(t, f))
    ensures m == Next(s, ReadLoad(t, f)) && Inv(m)
    ensures var r := s.readers[t];
            && m == s.(readers := m.readers)
            && m.readers == s.readers[t := r.(got := r.got[f := s.slots[s.home(r.rip)].fields[f]])]
            && m.readers[t].got.Keys == r.got.Keys + {f}
  {
    m := Next(s, ReadLoad(t, f));
    StepKeepsInv(s, ReadLoad(t, f));
  }

  /** The reader's remaining loads while nobody writes. */
  lemma {:induction false} LoadRun(s: State, t: nat, left: set<nat>) returns (acts: seq<Action>, n: State)
    requires Inv(s) && t < |s.readers| && s.readers[t].Loading?
    requires left == AllFields() - s.readers[t].got.Keys
    ensures Run(s, acts, n) && Inv(n)
    ensures t < |n.readers| && n == s.(readers := s.readers[t := n.readers[t]]) && n.readers[t].Loading?
    ensures var r, r' := s.readers[t], n.readers[t];
            && r' == r.(got := r'.got)
            && r'.got.Keys == AllFields()
            && (forall f :: f in r.got && f in r'.got ==> r'.got[f] == r.got[f])
            && (forall f :: 0 <= f < FIELDS && f in left ==> r'.got[f] == s.slots[s.home(r.rip)].fields[f])
    decreases left
  {
    var r := s.readers[t];
    assert ReaderInv(s, t);
    if left == {} {
      acts, n := [], s;
      assert r.got.Keys == AllFields();
      assert n == s.(readers := s.readers[t := n.readers[t]]);
    } else {
      var f :| f in left;
      var m := LoadOne(s, t, f);
      var rest;
      rest, n := LoadRun(m, t, left - {f});
      RunCons(s, ReadLoad(t, f), rest, n);
      acts := [ReadLoad(t, f)] + rest;
      assert n.readers == s.readers[t := n.readers[t]];
    }
  }

  /** A read of address a that has loaded nothing but the function pointer so far. */
  lemma {:induction false} HalfRead(s: State, t: nat, a: nat) returns (acts: seq<Action>, n: State)
    requires Inv(s) && s.writer.Idle? && t < |s.readers| && !s.readers[t].Loading?
    ensures Run(s, acts, n) && Inv(n)
    ensures t < |n.readers| && n == s.(readers := s.readers[t := n.readers[t]]) && n.readers[t].Loading?
    ensures var r, slot := n.readers[t], s.slots[s.home(a)];
            r.rip == a && r.since == slot.count && r.got == map[PROC := slot.fields[PROC]]
  {
    assert SlotInv(s, s.home(a));
    WordParity(s.slots[s.home(a)].count);
    var m := Next(s, ReadBegin(t, a));
    StepKeepsInv(s, ReadBegin(t, a));
    n := Next(m, ReadLoad(t, PROC));
    StepKeepsInv(m, ReadLoad(t, PROC));
    acts := [ReadBegin(t, a), ReadLoad(t, PROC)];
    assert acts[1..] == [ReadLoad(t, PROC)] && acts[1..][1..] == [];
  }

  /** One put and then one read up to its last load, nobody else doing anything. */
  lemma {:induction false} PutThenLoaded(m: State, rip: nat, t: nat) returns (acts: seq<Action>, e: State)
    requires Inv(m) && m.writer.Idle? && rip in m.truth && t < |m.readers| && !m.readers[t].Loading?
    ensures Run(m, acts, e) && Inv(e) && e.truth == m.truth && Enabled(e, ReadEnd(t))
    ensures e.readers[t].rip == rip && Enclosed(e, t) == 0 && e.slots[e.home(rip)].fields == m.truth[rip]
  {
    var put, p := PutRun(m, rip);
    var half, q := HalfRead(p, t, rip);
    var loads;
    loads, e := LoadRun(q, t, AllFields() - {PROC});
    RunAppend(p, half, q, loads, e);
    RunAppend(m, put, p, half + loads, e);
    acts := put + (half + loads);
  }

  /**
    What was put is found: from every idle state that can be reached there is a
    run, one put and one read, that ends with the whole answer in the reader's hand.
   */
  lemma {:induction false} PutIsFound(s: State, before: seq<Action>, m: State, rip: nat, t: nat) returns (acts: seq<Action>, n: State)
    requires Init(s) && Run(s, before, m) && Inv(m) && m.writer.Idle? && rip in m.truth
    requires t < |m.readers| && !m.readers[t].Loading?
    ensures Run(s, acts, n) && t < |n.readers| && n.truth == m.truth && n.readers[t] == Answered(rip, Some(m.truth[rip]))
  {
    var mid, e := PutThenLoaded(m, rip, t);
    RunAppend(s, before, m, mid, e);
    ReadAnswersTruth(s, before + mid, e, t);
    n := Next(e, ReadEnd(t));
    assert Run(e, [ReadEnd(t)], n);
    RunAppend(s, before + mid, e, [ReadEnd(t)], n);
    acts := before + mid + [ReadEnd(t)];
  }

  // ----- a flush -----

  /** What a flush does not touch. */
  ghost predicate SameBut(s: State, n: State) { n.home == s.home && n.readers == s.readers && n.truth == s.truth }

  /** One slot emptied, from its first store on. */
  lemma {:induction false} ClearRun(s: State, left: set<nat>) returns (acts: seq<Action>, n: State)
    requires Inv(s) && s.writer.FlushClear? && left == s.writer.left
    ensures Run(s, acts, n) && Inv(n) && SameBut(s, n) && n.writer == FlushScan(s.writer.slot + 1)
    decreases left
  {
    if left == {} {
      n := Next(s, FlushClose);
      StepKeepsInv(s, FlushClose);
      acts := [FlushClose];
      assert acts[1..] == [];
    } else {
      var f :| f in left;
      StepKeepsInv(s, FlushStore(f));
      var rest;
      rest, n := ClearRun(Next(s, FlushStore(f)), left - {f});
      RunCons(s, FlushStore(f), rest, n);
      acts := [FlushStore(f)] + rest;
    }
  }

  /** The slots from the one that the scan has come to. */
  lemma {:induction false} ScanRun(s: State, k: nat) returns (acts: seq<Action>, n: State)
    requires Inv(s) && s.writer == FlushScan(k)
    ensures Run(s, acts, n) && Inv(n) && SameBut(s, n) && n.writer == FlushScan(SLOTS)
    decreases SLOTS - k
  {
    if k == SLOTS {
      acts, n := [], s;
    } else {
      var m;
      acts, m := SlotRun(s, k);
      var rest;
      rest, n := ScanRun(m, k + 1);
      RunAppend(s, acts, m, rest, n);
      acts := acts + rest;
    }
  }

  lemma {:induction false} SlotRun(s: State, k: nat) returns (acts: seq<Action>, m: State)
    requires Inv(s) && s.writer == FlushScan(k) && k < SLOTS
    ensures Run(s, acts, m) && Inv(m) && SameBut(s, m) && m.writer == FlushScan(k + 1)
  {
    if s.slots[k].fields[RIP] == 0 {
      m := Next(s, FlushSkip);
      StepKeepsInv(s, FlushSkip);
      acts := [FlushSkip];
      assert acts[1..] == [];
    } else {
      var o := Next(s, FlushOpen);
      StepKeepsInv(s, FlushOpen);
      acts, m := ClearRun(o, o.writer.left);
      RunCons(s, FlushOpen, acts, m);
      acts := [FlushOpen] + acts;
    }
  }

  /**
    A module is unmapped: from every idle state there is a run of the flush that
    leaves every slot empty, the answers gone and the lock free.
   */
  lemma {:induction false} FlushEmpties(s: State, gone: set<nat>) returns (acts: seq<Action>, n: State)
    requires Inv(s) && s.writer.Idle?
    ensures Run(s, acts, n) && Inv(n) && n.writer.Idle? && n.home == s.home && n.readers == s.readers && n.truth == s.truth - gone
    ensures forall i :: 0 <= i < SLOTS ==> n.slots[i].fields[RIP] == 0
  {
    var b := Next(s, FlushBegin);
    StepKeepsInv(s, FlushBegin);
    var scan, m := ScanRun(b, 0);
    n := Next(m, Unmap(gone));
    StepKeepsInv(m, Unmap(gone));
    assert Run(m, [Unmap(gone)], n);
    RunAppend(b, scan, m, [Unmap(gone)], n);
    RunCons(s, FlushBegin, scan + [Unmap(gone)], n);
    acts := [FlushBegin] + (scan + [Unmap(gone)]);
  }

  /**
    One read that loads its function pointer from b's answer, sits out k whole
    puts of a's answer into the same slot, and loads the rest of a's.
   */
  lemma {:induction false} TornRun(s: State, t: nat, a: nat, b: nat, k: nat) returns (acts: seq<Action>, n: State)
    requires Inv(s) && s.writer.Idle? && t < |s.readers| && !s.readers[t].Loading? && k > 0
    requires a in s.truth && b in s.truth && s.home(a) == s.home(b)
    requires s.slots[s.home(a)].fields == s.truth[b]
    ensures Run(s, acts, n) && Inv(n) && n.truth == s.truth && n.home == s.home
    ensures Enabled(n, ReadEnd(t)) && n.readers[t].rip == a && Enclosed(n, t) == 2 * k
    ensures n.readers[t].got[PROC] == s.truth[b][PROC] && n.readers[t].got[RIP] == a
    ensures n.slots[n.home(a)].fields[RIP] == a
  {
    var half, s1 := HalfRead(s, t, a);
    var puts, s2 := PutRuns(s1, a, k);
    var loads;
    loads, n := LoadRun(s2, t, AllFields() - {PROC});
    RunAppend(s1, puts, s2, loads, n);
    RunAppend(s, half, s1, puts + loads, n);
    acts := half + (puts + loads);
    assert PROC in s2.readers[t].got && RIP in AllFields() - {PROC};
  }

  /** Stub addresses do share slots: the source's hash puts these together, each through another of its steps. */
  lemma {:induction false} HashCollides()
    ensures Hash(8) == Hash(8200) == Hash(0x10_0000) == Hash(0x4_0000_0000)
  {}

  /** Two stubs that share a slot and resolve to different functions, in an empty cache. */
  ghost predicate Rivals(s: State, t: nat, a: nat, b: nat) {
    && Init(s) && t < |s.readers|
    && a in s.truth && b in s.truth && s.home(a) == s.home(b)
    && s.truth[a][PROC] != s.truth[b][PROC]
  }

  lemma {:induction false} RivalsTorn(s: State, t: nat, a: nat, b: nat, k: nat) returns (acts: seq<Action>, n: State)
    requires Rivals(s, t, a, b) && k > 0
    ensures Run(s, acts, n) && Inv(n) && n.home == s.home && n.truth == s.truth
    ensures Enabled(n, ReadEnd(t)) && n.readers[t].rip == a && Enclosed(n, t) == 2 * k
    ensures n.readers[t].got[PROC] == s.truth[b][PROC] && n.readers[t].got[RIP] == a
    ensures n.slots[n.home(a)].fields[RIP] == a
  {
    InitInv(s);
    var put, m := PutRun(s, b);
    var torn;
    torn, n := TornRun(m, t, a, b, k);
    RunAppend(s, put, m, torn, n);
    acts := put + torn;
  }

  /** What the recheck makes of a read that d stores have passed by, d being 2 or 2^32. */
  lemma {:induction false} Recheck(slot: Slot, r: Reader, d: nat) returns (e: Entry)
    requires r.Loading? && r.got.Keys == AllFields() && r.s1 == r.since % SEQ_MOD
    requires slot.count == r.since + d && r.got[RIP] == r.rip != 0
    ensures d == 2 ==> Answer(slot, r) == None
    ensures d == SEQ_MOD ==>
              && |e| == FIELDS && Answer(slot, r) == Some(e)
              && e[RIP] == r.got[RIP] && e[PROC] == r.got[PROC]
  {
    e := seq(FIELDS, f requires 0 <= f < FIELDS => r.got[f]);
    assert (r.since + SEQ_MOD) % SEQ_MOD == r.since % SEQ_MOD != (r.since + 2) % SEQ_MOD;
  }

  /**
    The 32-bit sequence word really has the hole: from any empty cache in which
    two stubs share a slot there is a run in which 2^32 stores fall inside one
    read, the recheck passes, and the reader is handed the other stub's function.
   */
  lemma {:induction false} WrapAroundTearsARead(s: State, t: nat, a: nat, b: nat)
    returns (acts: seq<Action>, n: State, e: Entry)
    requires Rivals(s, t, a, b)
    ensures Run(s, acts, n) && Inv(n) && n.truth == s.truth
    ensures Enabled(n, ReadEnd(t)) && Enclosed(n, t) == SEQ_MOD && n.readers[t].rip == a
    ensures Gets(n, Next(n, ReadEnd(t)), t, a, Some(e)) && |e| == FIELDS
    ensures e[RIP] == a && e[PROC] == s.truth[b][PROC]
    ensures e[PROC] != s.truth[a][PROC]
  {
    acts, n := RivalsTorn(s, t, a, b, SEQ_MOD / 2);
    assert ReaderInv(n, t);
    e := Recheck(n.slots[n.home(a)], n.readers[t], SEQ_MOD);
  }

  /**
    Comparing the key before and after instead of the sequence word would not
    do: with a single put inside the read, the key loaded and the key in the
    slot are both the asked address and the function is the other stub's.  The
    sequence word turns that same read into a miss.
   */
  lemma {:induction false} KeyCheckAloneTears(s: State, t: nat, a: nat, b: nat)
    returns (acts: seq<Action>, n: State)
    requires Rivals(s, t, a, b)
    ensures Run(s, acts, n) && Inv(n) && n.truth == s.truth
    ensures Enabled(n, ReadEnd(t)) && n.readers[t].rip == a
    ensures n.readers[t].got[RIP] == a && n.slots[n.home(a)].fields[RIP] == a
    ensures n.readers[t].got[PROC] == s.truth[b][PROC] != s.truth[a][PROC]
    ensures Gets(n, Next(n, ReadEnd(t)), t, a, None)
  {
    acts, n := RivalsTorn(s, t, a, b, 1);
    assert ReaderInv(n, t);
    var _ := Recheck(n.slots[n.home(a)], n.readers[t], 2);
  }
}
