/**
  A Steam call carried to a helper process and back: the frame the client
  builds (dlls/steamclient64/steamrpc.c), what the helper makes of it
  (ppc64le/steamapi/helper/steamhelper.c), and what the client copies back.
  Memory is a function from addresses to cells; a pointer is one cell.
 */
module SteamRpc {

  const MAX_FRAME: nat := 16 * 1024 * 1024
  const BLOB_GUARD: nat := 256
  const GUARD_BYTE: nat := 0x5c
  const TWO32: nat := 0x1_0000_0000
  const HEADER: nat := 16   // the request header and each blob header are sixteen bytes

  type Memory = nat -> nat

  /** How the length of a pointee is found. */
  datatype Kind =
    | Fixed             // elem bytes
    | Computed          // a string's length, or a per-method length function
    | Sized(at: nat)    // the count at this offset of the params, times elem
    | Nested(at: nat)   // the count at this offset of the OUTER object; the pointer is elem into that object

  datatype Field = Field(offset: nat, out: bool, kind: Kind, elem: nat)

  function Slice(m: Memory, at: nat, len: nat): (s: seq<nat>)
    ensures |s| == len && forall i :: 0 <= i < len ==> s[i] == m(at + i)
  {
    seq(len, i requires 0 <= i < len => m(at + i))
  }

  function Write(m: Memory, at: nat, data: seq<nat>): Memory {
    (a: nat) => if at <= a < at + |data| then data[a - at] else m(a)
  }

  // ----- the client measures -----

  datatype Length = Unusable | Length(len: nat)

  /** One call: the caller's memory, its params struct and the fields, and each field's pointer and length. */
  datatype Call = Call(mem: Memory, params: nat, size: nat, fields: seq<Field>, ptr: nat -> nat, length: nat -> Length)

  /** field_ptr */
  function FieldPtr(mem: Memory, params: nat, f: Field): nat {
    var p := mem(params + f.offset);
    if f.kind.Nested? && p != 0 then mem(p + f.elem) else p
  }

  /** field_len: an unsigned 32-bit number, all ones for a refusal; `measured` is what strlen or lenfn answered. */
  function FieldLen(mem: Memory, params: nat, f: Field, measured: nat): Length {
    match f.kind
    case Fixed => AsLength(f.elem)
    case Computed => AsLength(measured)
    case Sized(at) =>
      var count := mem(params + at);
      if count > MAX_FRAME then Unusable else AsLength(count * f.elem)
    case Nested(at) =>
      var count := mem(mem(params + f.offset) + at);
      if count > MAX_FRAME then Unusable else AsLength(count)
  }

  function AsLength(n: nat): Length { if n % TWO32 == TWO32 - 1 then Unusable else Length(n % TWO32) }

  /** The call as the client finds it. */
  ghost predicate Found(c: Call, measured: nat -> nat) {
    forall i: nat :: i < |c.fields| ==>
      && c.ptr(i) == FieldPtr(c.mem, c.params, c.fields[i])
      && c.length(i) == FieldLen(c.mem, c.params, c.fields[i], measured(i))
  }

  function LenOf(c: Call, i: nat): nat
    requires i < |c.fields|
  {
    if c.ptr(i) == 0 || c.length(i).Unusable? then 0 else c.length(i).len
  }

  /** The frame's size with the first n fields in it. */
  function Need(c: Call, n: nat): nat
    requires n <= |c.fields|
  {
    if n == 0 then HEADER + c.size
    else Need(c, n - 1) + if c.ptr(n - 1) == 0 then 0 else HEADER + LenOf(c, n - 1)
  }

  /** The loop that measures refuses a call at field i. */
  predicate RefusedAt(c: Call, i: nat)
    requires i < |c.fields|
  {
    c.ptr(i) != 0 && (c.length(i).Unusable? || Need(c, i) + LenOf(c, i) + HEADER > MAX_FRAME)
  }

  /** The loop that measures every field, and copies nothing. */
  method Measure(c: Call) returns (ok: bool, ptrs: seq<nat>, lens: seq<nat>, need: nat)
    ensures ok <==> forall i: nat {:trigger RefusedAt(c, i)} :: i < |c.fields| ==> !RefusedAt(c, i)
    ensures ok ==> |ptrs| == |lens| == |c.fields| && need == Need(c, |c.fields|)
    ensures ok ==> forall i {:trigger ptrs[i]} {:trigger lens[i]} :: 0 <= i < |c.fields| ==> ptrs[i] == c.ptr(i) && lens[i] == LenOf(c, i)
    ensures ok && HEADER + c.size <= MAX_FRAME ==> need <= MAX_FRAME
  {
    ok, ptrs, lens, need := true, [], [], HEADER + c.size;
    var i := 0;
    while i < |c.fields|
      invariant 0 <= i <= |c.fields| && |ptrs| == |lens| == i && ok
      invariant forall j {:trigger ptrs[j]} {:trigger lens[j]} :: 0 <= j < i ==> ptrs[j] == c.ptr(j) && lens[j] == LenOf(c, j)
      invariant forall j: nat {:trigger RefusedAt(c, j)} :: j < i ==> !RefusedAt(c, j)
      invariant need == Need(c, i) && (HEADER + c.size <= MAX_FRAME ==> need <= MAX_FRAME)
    {
      var ptr, len := c.ptr(i), 0;
      if ptr != 0 {
        var l := c.length(i);
        if l.Unusable? || need + l.len + HEADER > MAX_FRAME {
          assert RefusedAt(c, i);
          ok := false;
          return;
        }
        len := l.len;
        need := need + HEADER + len;
      }
      ptrs, lens := ptrs + [ptr], lens + [len];
      i := i + 1;
    }
  }

  /** Sixteen million elements of 256 bytes: within the cap on the count, and nothing at all is sent. */
  lemma {:induction false} SizedCanWrapToNothing(mem: Memory, params: nat, f: Field, measured: nat)
    requires f.kind.Sized? && f.elem == 256 && mem(params + f.kind.at) == MAX_FRAME
    ensures FieldLen(mem, params, f, measured) == Length(0)
  {
  }

  // ----- the request -----

  datatype Blob = Blob(offset: nat, out: bool, nested: bool, inner: nat, data: seq<nat>)

  function BlobOf(c: Call, i: nat): Blob
    requires i < |c.fields|
  {
    var f := c.fields[i];
    Blob(f.offset, f.out, f.kind.Nested?, if f.kind.Nested? then f.elem else 0, Slice(c.mem, c.ptr(i), LenOf(c, i)))
  }

  /** The number that the caller or the object itself gives for field i's buffer; 0 where there is none. */
  function CountOf(c: Call, i: nat): nat
    requires i < |c.fields|
  {
    match c.fields[i].kind
    case Sized(at) => c.mem(c.params + at)
    case Nested(at) => c.mem(c.mem(c.params + c.fields[i].offset) + at)
    case _ => 0
  }

  /** How many bytes field i's pointer leads to. */
  function Bytes(c: Call, measured: nat, i: nat): nat
    requires i < |c.fields|
  {
    match c.fields[i].kind
    case Fixed => c.fields[i].elem
    case Computed => measured
    case Sized(_) => CountOf(c, i) * c.fields[i].elem
    case Nested(_) => CountOf(c, i)
  }

  /**
    A buffer is refused exactly if its count passes the cap or its size is all
    ones in 32 bits.  One that is not is sent whole exactly if its bytes fit 32
    bits; past that the product wraps and the buffer is cut short.
   */
  lemma {:induction false} BufferIsWholeIff(c: Call, measured: nat -> nat, i: nat)
    requires Found(c, measured) && i < |c.fields| && c.ptr(i) != 0
    ensures c.length(i).Unusable? <==> CountOf(c, i) > MAX_FRAME || Bytes(c, measured(i), i) % TWO32 == TWO32 - 1
    ensures c.length(i).Length? ==> (|BlobOf(c, i).data| == Bytes(c, measured(i), i) <==> Bytes(c, measured(i), i) < TWO32)
  {
  }

  /** The blobs of the first n fields: one for each pointer that is not null. */
  function Blobs(c: Call, n: nat): seq<Blob>
    requires n <= |c.fields|
  {
    if n == 0 then [] else Blobs(c, n - 1) + if c.ptr(n - 1) == 0 then [] else [BlobOf(c, n - 1)]
  }

  /** The loop that builds the frame. */
  method BuildFrame(c: Call) returns (params: seq<nat>, blobs: seq<Blob>)
    ensures params == Slice(c.mem, c.params, c.size) && blobs == Blobs(c, |c.fields|)
  {
    params, blobs := Slice(c.mem, c.params, c.size), [];
    for i := 0 to |c.fields|
      invariant blobs == Blobs(c, i)
    {
      if c.ptr(i) != 0 { blobs := blobs + [BlobOf(c, i)]; }
    }
  }

  /** The bytes of a frame with these params and blobs. */
  function FrameSize(params: nat, blobs: seq<Blob>): nat {
    if blobs == [] then HEADER + params else FrameSize(params, blobs[..|blobs| - 1]) + HEADER + |blobs[|blobs| - 1].data|
  }

  lemma {:induction false} FrameSizePush(params: nat, blobs: seq<Blob>, b: Blob)
    ensures FrameSize(params, blobs + [b]) == FrameSize(params, blobs) + HEADER + |b.data|
  {
    assert (blobs + [b])[..|blobs|] == blobs;
  }

  lemma {:induction false} NeedIsTheSize(c: Call, n: nat)
    requires n <= |c.fields|
    ensures Need(c, n) == FrameSize(c.size, Blobs(c, n))
  {
    if n > 0 {
      NeedIsTheSize(c, n - 1);
      if c.ptr(n - 1) != 0 {
        FrameSizePush(c.size, Blobs(c, n - 1), BlobOf(c, n - 1));
      } else {
        assert Blobs(c, n) == Blobs(c, n - 1);
      }
    }
  }

  /** A usable pointer is refused exactly if the frame up to and with it is too long; no shorter one is refused then. */
  lemma {:induction false} RefusedIff(c: Call, i: nat, n: nat)
    requires i < n <= |c.fields|
    ensures RefusedAt(c, i) <==> c.ptr(i) != 0 && (c.length(i).Unusable? || Need(c, i + 1) > MAX_FRAME)
    ensures Need(c, i + 1) <= Need(c, n)
    ensures c.ptr(i) != 0 ==> Blobs(c, n) != []
    decreases n
  {
    if i < n - 1 { RefusedIff(c, i, n - 1); }
  }

  /**
    What is measured is the frame that is built: a call goes out exactly if
    every pointer's length is usable and, if there is a pointer at all, the whole
    frame has at most 16 MiB.
   */
  lemma {:induction false} CallGoesOutIff(c: Call)
    ensures (forall i: nat {:trigger RefusedAt(c, i)} :: i < |c.fields| ==> !RefusedAt(c, i)) <==>
            && (forall i: nat {:trigger c.length(i)} :: i < |c.fields| && c.ptr(i) != 0 ==> c.length(i).Length?)
            && (Blobs(c, |c.fields|) != [] ==> FrameSize(c.size, Blobs(c, |c.fields|)) <= MAX_FRAME)
    ensures Need(c, |c.fields|) == FrameSize(c.size, Blobs(c, |c.fields|))
  {
    var n := |c.fields|;
    NeedIsTheSize(c, n);
    forall i: nat | i < n
      ensures RefusedAt(c, i) <==> c.ptr(i) != 0 && (c.length(i).Unusable? || Need(c, i + 1) > MAX_FRAME)
      ensures Need(c, i + 1) <= Need(c, n) && (c.ptr(i) != 0 ==> Blobs(c, n) != [])
    {
      RefusedIff(c, i, n);
    }
    if Blobs(c, n) != [] {
      var i := LastSent(c, n);
    }
  }

  /** The last of the first n fields whose pointer is not null. */
  lemma {:induction false} LastSent(c: Call, n: nat) returns (i: nat)
    requires n <= |c.fields| && Blobs(c, n) != []
    ensures i < n && c.ptr(i) != 0 && Need(c, n) == Need(c, i + 1)
  {
    if c.ptr(n - 1) != 0 { i := n - 1; } else { i := LastSent(c, n - 1); }
  }

  /** Where field n's blob stands among them. */
  function Position(c: Call, n: nat): (k: nat)
    requires n <= |c.fields|
    ensures k == |Blobs(c, n)|
  {
    if n == 0 then 0 else Position(c, n - 1) + if c.ptr(n - 1) == 0 then 0 else 1
  }

  lemma {:induction false} BlobAt(c: Call, i: nat, n: nat)
    requires i < n <= |c.fields| && c.ptr(i) != 0
    ensures Position(c, i) < |Blobs(c, n)| && Blobs(c, n)[Position(c, i)] == BlobOf(c, i)
    decreases n
  {
    if n > i + 1 { BlobAt(c, i, n - 1); }
  }

  // ----- the helper loads -----

  function Guard(): (g: seq<nat>)
    ensures |g| == BLOB_GUARD && forall i :: 0 <= i < |g| ==> g[i] == GUARD_BYTE
  {
    seq(BLOB_GUARD, _ => GUARD_BYTE)
  }

  /** The first of the first n blobs that is at this offset of the params itself, n if none is. */
  function OuterBlob(blobs: seq<Blob>, offset: nat, n: nat): (k: nat)
    requires n <= |blobs|
    ensures k <= n && (k < n ==> blobs[k].offset == offset && !blobs[k].nested)
    ensures forall j :: 0 <= j < k ==> blobs[j].offset != offset || blobs[j].nested
  {
    if n == 0 then 0
    else
      var k := OuterBlob(blobs, offset, n - 1);
      if k < n - 1 then k else if blobs[n - 1].offset == offset && !blobs[n - 1].nested then n - 1 else n
  }

  /** The helper's copies: the params struct, and each blob with its red zone. */
  datatype Loaded = Bad | Loaded(params: seq<nat>, bufs: seq<seq<nat>>)

  /** A blob is placed: allocated with a red zone, and its pointer patched to the copy. */
  function Place(l: Loaded, blobs: seq<Blob>, k: nat, at: nat): Loaded
    requires l.Loaded? && k < |blobs| && |l.bufs| == k && forall j :: 0 <= j < k ==> |l.bufs[j]| >= |blobs[j].data|
  {
    var b := blobs[k];
    var own := b.data + Guard();
    if b.offset + 8 > |l.params| then Bad
    else if !b.nested then Loaded(l.params[b.offset := at], l.bufs + [own])
    else
      var o := OuterBlob(blobs, b.offset, k);
      if o == k || b.inner + 8 > |blobs[o].data| then Bad
      else
        var patched: seq<nat> := l.bufs[o][b.inner := at];
        Loaded(l.params, l.bufs[o := patched] + [own])
  }

  /** The first n blobs placed, blob k at address addr(k). */
  function Load(params: seq<nat>, blobs: seq<Blob>, addr: nat -> nat, n: nat): (l: Loaded)
    requires n <= |blobs|
    ensures l.Loaded? ==> |l.params| == |params| && |l.bufs| == n
    ensures l.Loaded? ==> forall k :: 0 <= k < n ==> |l.bufs[k]| == |blobs[k].data| + BLOB_GUARD
  {
    if n == 0 then Loaded(params, [])
    else
      var l := Load(params, blobs, addr, n - 1);
      if l.Bad? then Bad else Place(l, blobs, n - 1, addr(n - 1))
  }

  /** The loop that reads the frame. */
  method ReadFrame(params: seq<nat>, blobs: seq<Blob>, addr: nat -> nat) returns (l: Loaded)
    ensures l == Load(params, blobs, addr, |blobs|)
  {
    l := Loaded(params, []);
    var k := 0;
    while k < |blobs|
      invariant 0 <= k <= |blobs| && l == Load(params, blobs, addr, k) && l.Loaded?
    {
      l := Place(l, blobs, k, addr(k));
      k := k + 1;
      if l.Bad? {
        StaysBad(params, blobs, addr, k, |blobs|);
        return;
      }
    }
  }

  lemma {:induction false} StaysBad(params: seq<nat>, blobs: seq<Blob>, addr: nat -> nat, k: nat, n: nat)
    requires k <= n <= |blobs| && Load(params, blobs, addr, k).Bad?
    ensures Load(params, blobs, addr, n).Bad?
    decreases n
  {
    if k < n { StaysBad(params, blobs, addr, k, n - 1); }
  }

  /** No two blobs are for one pointer. */
  ghost predicate Distinct(blobs: seq<Blob>) {
    forall j, k :: 0 <= j < k < |blobs| ==> !SameBlob(blobs[j], blobs[k])
  }

  /** Each pointer the callee follows leads to the copy of what the caller's pointer led to. */
  ghost predicate Patched(l: Loaded, blobs: seq<Blob>, addr: nat -> nat, n: nat, j: nat)
    requires l.Loaded? && j < n <= |blobs| && |l.bufs| == n
  {
    var b := blobs[j];
    if b.nested then
      var o := OuterBlob(blobs, b.offset, j);
      o < j && b.inner < |l.bufs[o]| && l.bufs[o][b.inner] == addr(j)
    else b.offset < |l.params| && l.params[b.offset] == addr(j)
  }

  lemma {:induction false} PointersLeadToCopies(params: seq<nat>, blobs: seq<Blob>, addr: nat -> nat, n: nat, j: nat)
    requires n <= |blobs| && Distinct(blobs) && Load(params, blobs, addr, n).Loaded? && j < n
    ensures Patched(Load(params, blobs, addr, n), blobs, addr, n, j)
    decreases n
  {
    var b := blobs[n - 1];
    if j < n - 1 {
      PointersLeadToCopies(params, blobs, addr, n - 1, j);
      if b.nested && blobs[j].nested {
        var o, q := OuterBlob(blobs, b.offset, n - 1), OuterBlob(blobs, blobs[j].offset, j);
        if o == q { assert blobs[j].inner != b.inner; }
      }
    }
  }

  /** A cell of a blob is as the caller had it, unless it is itself a pointer to another blob. */
  lemma {:induction false} CopiesAreFaithful(params: seq<nat>, blobs: seq<Blob>, addr: nat -> nat, n: nat, k: nat, x: nat)
    requires n <= |blobs| && Load(params, blobs, addr, n).Loaded? && k < n && x < |blobs[k].data| + BLOB_GUARD
    requires forall j :: k < j < n && blobs[j].nested && OuterBlob(blobs, blobs[j].offset, j) == k ==> blobs[j].inner != x
    ensures Load(params, blobs, addr, n).bufs[k][x] == (blobs[k].data + Guard())[x]
    decreases n
  {
    if k < n - 1 { CopiesAreFaithful(params, blobs, addr, n - 1, k, x); }
  }

  /** Red zones are intact when the callee is entered: no pointer is ever patched into one. */
  lemma {:induction false} RedZonesAreIntact(params: seq<nat>, blobs: seq<Blob>, addr: nat -> nat, n: nat, k: nat, x: nat)
    requires n <= |blobs| && Load(params, blobs, addr, n).Loaded? && k < n && |blobs[k].data| <= x < |blobs[k].data| + BLOB_GUARD
    ensures Load(params, blobs, addr, n).bufs[k][x] == GUARD_BYTE
  {
    forall j | k < j < n && blobs[j].nested && OuterBlob(blobs, blobs[j].offset, j) == k ensures blobs[j].inner != x {
      NestedFits(params, blobs, addr, n, j);
    }
    CopiesAreFaithful(params, blobs, addr, n, k, x);
  }

  lemma {:induction false} NestedFits(params: seq<nat>, blobs: seq<Blob>, addr: nat -> nat, n: nat, j: nat)
    requires n <= |blobs| && Load(params, blobs, addr, n).Loaded? && j < n && blobs[j].nested
    ensures var o := OuterBlob(blobs, blobs[j].offset, j); o < j && blobs[j].inner + 8 <= |blobs[o].data|
    decreases n
  {
    if j < n - 1 { NestedFits(params, blobs, addr, n - 1, j); }
  }

  lemma {:induction false} OtherParamsAsSent(params: seq<nat>, blobs: seq<Blob>, addr: nat -> nat, n: nat, x: nat)
    requires n <= |blobs| && Load(params, blobs, addr, n).Loaded? && x < |params|
    requires forall j :: 0 <= j < n && !blobs[j].nested ==> blobs[j].offset != x
    ensures Load(params, blobs, addr, n).params[x] == params[x]
    decreases n
  {
    if n > 0 { OtherParamsAsSent(params, blobs, addr, n - 1, x); }
  }

  // ----- the helper answers -----

  /** blob_overrun: how far past its end a blob was written, 0 if its red zone is untouched. */
  method BlobOverrun(buf: seq<nat>, len: nat) returns (past: nat)
    requires |buf| == len + BLOB_GUARD
    ensures past <= BLOB_GUARD && (past > 0 ==> buf[len..][past - 1] != GUARD_BYTE)
    ensures forall i :: past <= i < BLOB_GUARD ==> buf[len..][i] == GUARD_BYTE
    ensures past == 0 <==> Whole(buf, len)
  {
    var guard := buf[len..];
    past := 0;
    for i := 0 to BLOB_GUARD
      invariant past <= i && (past > 0 ==> guard[past - 1] != GUARD_BYTE)
      invariant forall j :: past <= j < i ==> guard[j] == GUARD_BYTE
    {
      if guard[i] != GUARD_BYTE { past := i + 1; }
    }
  }

  predicate Whole(buf: seq<nat>, len: nat)
    requires |buf| == len + BLOB_GUARD
  {
    forall i :: 0 <= i < BLOB_GUARD ==> buf[len..][i] == GUARD_BYTE
  }

  /** What the callee left in the helper's copies: each of them as long as it was. */
  predicate Sized(after: seq<seq<nat>>, blobs: seq<Blob>) {
    |after| == |blobs| && forall k :: 0 <= k < |blobs| ==> |after[k]| == |blobs[k].data| + BLOB_GUARD
  }

  datatype Reply = Reply(overflow: bool, params: seq<nat>, blobs: seq<Blob>)

  /** The copies of the first n blobs that are going back. */
  function OutBlobs(blobs: seq<Blob>, after: seq<seq<nat>>, n: nat): seq<Blob>
    requires n <= |blobs| && Sized(after, blobs)
  {
    if n == 0 then []
    else
      var b := blobs[n - 1];
      OutBlobs(blobs, after, n - 1) + if b.out then [b.(data := after[n - 1][..|b.data|])] else []
  }

  /** A call that wrote into a red zone is refused: no buffer goes back, though the params struct does. */
  function Answer(blobs: seq<Blob>, params: seq<nat>, after: seq<seq<nat>>): Reply
    requires Sized(after, blobs)
  {
    if exists k :: 0 <= k < |blobs| && !Whole(after[k], |blobs[k].data|) then Reply(true, params, [])
    else Reply(false, params, OutBlobs(blobs, after, |blobs|))
  }

  // ----- the client copies back -----

  /** The field a reply blob names: the first with its key and a pointer that was sent. */
  function FindField(c: Call, b: Blob, n: nat): (j: nat)
    requires n <= |c.fields|
    ensures j <= n && (j < n ==> Names(c, b, j)) && forall i: nat {:trigger Names(c, b, i)} :: i < j && i < n ==> !Names(c, b, i)
  {
    if n == 0 then 0
    else
      var j := FindField(c, b, n - 1);
      if j < n - 1 then j else if Names(c, b, n - 1) then n - 1 else n
  }

  predicate Names(c: Call, b: Blob, i: nat)
    requires i < |c.fields|
  {
    var f := c.fields[i];
    f.offset == b.offset && c.ptr(i) != 0 && f.kind.Nested? == b.nested && (b.nested ==> f.elem == b.inner)
  }

  function Min(a: nat, b: nat): nat { if a < b then a else b }

  /** One reply blob, into the caller's own buffer and no further than its length. */
  function CopyOne(c: Call, m: Memory, b: Blob): Memory {
    var j := FindField(c, b, |c.fields|);
    if j == |c.fields| then m else Write(m, c.ptr(j), b.data[..Min(|b.data|, LenOf(c, j))])
  }

  function CopyBack(c: Call, m: Memory, blobs: seq<Blob>): Memory {
    if blobs == [] then m else CopyOne(c, CopyBack(c, m, blobs[..|blobs| - 1]), blobs[|blobs| - 1])
  }

  /** The caller's own pointers over the helper's, in the params struct. */
  function RestoreTop(c: Call, m: Memory, n: nat): Memory
    requires n <= |c.fields|
  {
    if n == 0 then m
    else
      var r := RestoreTop(c, m, n - 1);
      if c.fields[n - 1].kind.Nested? then r else Write(r, c.params + c.fields[n - 1].offset, [c.ptr(n - 1)])
  }

  /** And one level in, where the outer object is not null. */
  function RestoreOneNested(c: Call, m: Memory, i: nat): Memory
    requires i < |c.fields|
  {
    var f := c.fields[i];
    var outer := c.mem(c.params + f.offset);
    if f.kind.Nested? && outer != 0 then Write(m, outer + f.elem, [c.ptr(i)]) else m
  }

  function RestoreNested(c: Call, m: Memory, n: nat): Memory
    requires n <= |c.fields|
  {
    if n == 0 then m else RestoreOneNested(c, RestoreNested(c, m, n - 1), n - 1)
  }

  /** The caller's memory when the call returns. */
  function Final(c: Call, r: Reply): Memory {
    var all := |c.fields|;
    RestoreNested(c, CopyBack(c, RestoreTop(c, Write(c.mem, c.params, r.params), all), r.blobs), all)
  }

  /** The second half of steamrpc_call. */
  method Receive(c: Call, r: Reply) returns (m: Memory)
    ensures m == Final(c, r)
  {
    m := Write(c.mem, c.params, r.params);
    m := PutPointersBack(c, m);
    m := TakeBlobs(c, m, r.blobs);
    m := PutNestedBack(c, m);
  }

  method PutPointersBack(c: Call, m0: Memory) returns (m: Memory)
    ensures m == RestoreTop(c, m0, |c.fields|)
  {
    m := m0;
    for i := 0 to |c.fields|
      invariant m == RestoreTop(c, m0, i)
    {
      if !c.fields[i].kind.Nested? { m := Write(m, c.params + c.fields[i].offset, [c.ptr(i)]); }
    }
  }

  method PutNestedBack(c: Call, m0: Memory) returns (m: Memory)
    ensures m == RestoreNested(c, m0, |c.fields|)
  {
    m := m0;
    for i := 0 to |c.fields|
      invariant m == RestoreNested(c, m0, i)
    {
      m := RestoreOneNested(c, m, i);
    }
  }

  method TakeBlobs(c: Call, m0: Memory, blobs: seq<Blob>) returns (m: Memory)
    ensures m == CopyBack(c, m0, blobs)
  {
    m := m0;
    for i := 0 to |blobs|
      invariant m == CopyBack(c, m0, blobs[..i])
    {
      assert blobs[..i + 1][..i] == blobs[..i];
      var j := Match(c, blobs[i]);
      if j < |c.fields| { m := Write(m, c.ptr(j), blobs[i].data[..Min(|blobs[i].data|, LenOf(c, j))]); }
    }
    assert blobs[..|blobs|] == blobs;
  }

  method Match(c: Call, b: Blob) returns (j: nat)
    ensures j == FindField(c, b, |c.fields|)
  {
    j := 0;
    while j < |c.fields| && !Names(c, b, j)
      invariant j <= |c.fields|
      invariant forall k: nat {:trigger Names(c, b, k)} :: k < j ==> !Names(c, b, k)
    {
      j := j + 1;
    }
    FindIs(c, b, j);
  }

  lemma {:induction false} FindIs(c: Call, b: Blob, j: nat)
    requires j <= |c.fields| && (j < |c.fields| ==> Names(c, b, j))
    requires forall k: nat {:trigger Names(c, b, k)} :: k < j ==> !Names(c, b, k)
    ensures FindField(c, b, |c.fields|) == j
  {
  }

  // ----- the round trip -----

  /** The method table is sound: pointers inside the params struct, no two fields for one pointer. */
  ghost predicate SoundFields(c: Call) {
    && (forall i :: 0 <= i < |c.fields| ==> c.fields[i].offset + 8 <= c.size)
    && (forall i: nat {:trigger c.ptr(i)} :: i < |c.fields| ==> c.ptr(i) == FieldPtr(c.mem, c.params, c.fields[i]))
    && DistinctKeys(c)
  }

  ghost predicate DistinctKeys(c: Call) {
    forall i: nat, j: nat {:trigger SameKey(c, i, j)} :: i < j < |c.fields| ==> !SameKey(c, i, j)
  }

  ghost predicate SameKey(c: Call, i: nat, j: nat)
    requires i < |c.fields| && j < |c.fields|
  {
    var f, g := c.fields[i], c.fields[j];
    f.offset == g.offset && f.kind.Nested? == g.kind.Nested? && (f.kind.Nested? ==> f.elem == g.elem)
  }

  ghost predicate InBuffer(c: Call, i: nat, a: nat)
    requires i < |c.fields|
  {
    c.ptr(i) != 0 && c.ptr(i) <= a < c.ptr(i) + LenOf(c, i)
  }

  ghost predicate InParams(c: Call, a: nat) { c.params <= a < c.params + c.size }

  /** A pointer cell one level in. */
  ghost predicate NestedCell(c: Call, i: nat, a: nat)
    requires i < |c.fields|
  {
    c.fields[i].kind.Nested? && c.mem(c.params + c.fields[i].offset) != 0
    && a == c.mem(c.params + c.fields[i].offset) + c.fields[i].elem
  }

  /** The caller's buffers and its params struct do not overlap, and no nested pointer is in the params struct. */
  ghost predicate Apart(c: Call) {
    && (forall i: nat, j: nat, a: nat {:trigger InBuffer(c, i, a), InBuffer(c, j, a)} ::
          i < j < |c.fields| && InBuffer(c, i, a) ==> !InBuffer(c, j, a))
    && (forall i: nat, a: nat {:trigger InBuffer(c, i, a)} :: i < |c.fields| && InBuffer(c, i, a) ==> !InParams(c, a))
    && (forall i: nat, a: nat {:trigger NestedCell(c, i, a)} :: i < |c.fields| && NestedCell(c, i, a) ==> !InParams(c, a))
  }

  function All(c: Call): seq<Blob> { Blobs(c, |c.fields|) }

  /** The fields' buffers overwritten with what the callee left in the helper's copies. */
  function CopyFields(c: Call, m: Memory, after: seq<seq<nat>>, n: nat): Memory
    requires n <= |c.fields| && Returned(c, after)
  {
    if n == 0 then m
    else
      var r := CopyFields(c, m, after, n - 1);
      if c.ptr(n - 1) != 0 && c.fields[n - 1].out then Write(r, c.ptr(n - 1), ResultOf(c, after, n - 1)) else r
  }

  predicate Returned(c: Call, after: seq<seq<nat>>) { Sized(after, All(c)) }

  /** What the callee left in the copy of field i's pointee. */
  function ResultOf(c: Call, after: seq<seq<nat>>, i: nat): (data: seq<nat>)
    requires Returned(c, after) && i < |c.fields| && c.ptr(i) != 0
    ensures |data| == LenOf(c, i)
  {
    BlobAt(c, i, |c.fields|);
    after[Position(c, i)][..LenOf(c, i)]
  }

  lemma {:induction false} OwnBlobNamesField(c: Call, i: nat)
    requires SoundFields(c) && i < |c.fields| && c.ptr(i) != 0
    ensures forall data: seq<nat> :: FindField(c, BlobOf(c, i).(data := data), |c.fields|) == i
  {
    forall data: seq<nat> ensures FindField(c, BlobOf(c, i).(data := data), |c.fields|) == i {
      var b := BlobOf(c, i).(data := data);
      assert Names(c, b, i);
      forall k: nat | k < i ensures !Names(c, b, k) {
        assert !SameKey(c, k, i);
      }
      FindIs(c, b, i);
    }
  }

  lemma {:induction false} CopyBackSnoc(c: Call, m: Memory, blobs: seq<Blob>, b: Blob)
    ensures CopyBack(c, m, blobs + [b]) == CopyOne(c, CopyBack(c, m, blobs), b)
  {
  }

  lemma {:induction false} ReplyReachesItsField(c: Call, m: Memory, after: seq<seq<nat>>, i: nat, blobs: seq<Blob>)
    requires SoundFields(c) && Returned(c, after) && i < |c.fields| && c.ptr(i) != 0
    ensures CopyBack(c, m, blobs + [BlobOf(c, i).(data := ResultOf(c, after, i))])
            == Write(CopyBack(c, m, blobs), c.ptr(i), ResultOf(c, after, i))
  {
    var data := ResultOf(c, after, i);
    CopyBackSnoc(c, m, blobs, BlobOf(c, i).(data := data));
    OwnBlobNamesField(c, i);
    assert data[..Min(|data|, LenOf(c, i))] == data;
  }

  lemma {:induction false} OutBlobsNext(c: Call, after: seq<seq<nat>>, i: nat)
    requires Returned(c, after) && i < |c.fields| && c.ptr(i) != 0
    ensures Position(c, i) < |All(c)|
    ensures OutBlobs(All(c), after, Position(c, i) + 1)
            == OutBlobs(All(c), after, Position(c, i))
               + if c.fields[i].out then [BlobOf(c, i).(data := ResultOf(c, after, i))] else []
  {
    BlobAt(c, i, |c.fields|);
  }

  /** The first n fields' replies have reached their buffers. */
  ghost predicate Reached(c: Call, m: Memory, after: seq<seq<nat>>, n: nat)
    requires n <= |c.fields| && Returned(c, after)
  {
    Position(c, n) <= |All(c)| && CopyBack(c, m, OutBlobs(All(c), after, Position(c, n))) == CopyFields(c, m, after, n)
  }

  lemma {:induction false} CopyFieldsNext(c: Call, m: Memory, after: seq<seq<nat>>, i: nat)
    requires Returned(c, after) && i < |c.fields| && c.ptr(i) != 0 && c.fields[i].out
    ensures CopyFields(c, m, after, i + 1) == Write(CopyFields(c, m, after, i), c.ptr(i), ResultOf(c, after, i))
  {
  }

  lemma {:induction false} CopyFieldsSame(c: Call, m: Memory, after: seq<seq<nat>>, i: nat)
    requires Returned(c, after) && i < |c.fields| && !(c.ptr(i) != 0 && c.fields[i].out)
    ensures CopyFields(c, m, after, i + 1) == CopyFields(c, m, after, i)
  {
  }

  lemma {:induction false} ReachedOut(c: Call, m: Memory, after: seq<seq<nat>>, i: nat)
    requires SoundFields(c) && Returned(c, after) && i < |c.fields| && Reached(c, m, after, i)
    requires c.ptr(i) != 0 && c.fields[i].out
    ensures Reached(c, m, after, i + 1)
  {
    var before := OutBlobs(All(c), after, Position(c, i));
    var b := BlobOf(c, i).(data := ResultOf(c, after, i));
    assert Position(c, i + 1) <= |All(c)| && OutBlobs(All(c), after, Position(c, i + 1)) == before + [b] by {
      OutBlobsNext(c, after, i);
    }
    assert CopyBack(c, m, before + [b]) == Write(CopyFields(c, m, after, i), c.ptr(i), ResultOf(c, after, i)) by {
      ReplyReachesItsField(c, m, after, i, before);
    }
    CopyFieldsNext(c, m, after, i);
  }

  lemma {:induction false} OutBlobsSame(c: Call, after: seq<seq<nat>>, i: nat)
    requires Returned(c, after) && i < |c.fields| && c.ptr(i) != 0 && !c.fields[i].out
    ensures Position(c, i) < Position(c, i + 1) <= |All(c)|
    ensures OutBlobs(All(c), after, Position(c, i + 1)) == OutBlobs(All(c), after, Position(c, i))
  {
    OutBlobsNext(c, after, i);
    var before := OutBlobs(All(c), after, Position(c, i));
    assert before + [] == before;
  }

  lemma {:induction false} ReachedIn(c: Call, m: Memory, after: seq<seq<nat>>, i: nat)
    requires Returned(c, after) && i < |c.fields| && Reached(c, m, after, i)
    requires c.ptr(i) != 0 && !c.fields[i].out
    ensures Reached(c, m, after, i + 1)
  {
    OutBlobsSame(c, after, i);
    CopyFieldsSame(c, m, after, i);
  }

  lemma {:induction false} ReachedNull(c: Call, m: Memory, after: seq<seq<nat>>, i: nat)
    requires Returned(c, after) && i < |c.fields| && Reached(c, m, after, i) && c.ptr(i) == 0
    ensures Reached(c, m, after, i + 1)
  {
  }

  lemma {:induction false} ReachedNone(c: Call, m: Memory, after: seq<seq<nat>>)
    requires Returned(c, after)
    ensures Reached(c, m, after, 0)
  {
  }

  /** The reply's blobs, matched by key, write each field's result into that field's buffer. */
  lemma {:induction false} RepliesReachTheirFields(c: Call, m: Memory, after: seq<seq<nat>>, n: nat)
    requires SoundFields(c) && Returned(c, after) && n <= |c.fields|
    ensures Reached(c, m, after, n)
    decreases n
  {
    if n == 0 {
      ReachedNone(c, m, after);
    } else {
      var i := n - 1;
      RepliesReachTheirFields(c, m, after, i);
      if c.ptr(i) == 0 {
        ReachedNull(c, m, after, i);
      } else if c.fields[i].out {
        ReachedOut(c, m, after, i);
      } else {
        ReachedIn(c, m, after, i);
      }
    }
  }

  lemma {:induction false} PositionGrows(c: Call, i: nat, n: nat)
    requires i <= n <= |c.fields|
    ensures Position(c, i) <= Position(c, n)
    decreases n
  {
    if i < n { PositionGrows(c, i, n - 1); }
  }

  /** Where the params struct's pointers were put back. */
  ghost predicate TopCell(c: Call, i: nat, a: nat)
    requires i < |c.fields|
  {
    !c.fields[i].kind.Nested? && a == c.params + c.fields[i].offset
  }

  lemma {:induction false} RestoreTopElsewhere(c: Call, m: Memory, n: nat, a: nat)
    requires n <= |c.fields| && forall i: nat {:trigger TopCell(c, i, a)} :: i < n ==> !TopCell(c, i, a)
    ensures RestoreTop(c, m, n)(a) == m(a)
  {
    if n > 0 {
      assert !TopCell(c, n - 1, a);
      RestoreTopElsewhere(c, m, n - 1, a);
    }
  }

  lemma {:induction false} RestoreTopThere(c: Call, m: Memory, n: nat, i: nat, a: nat)
    requires DistinctKeys(c) && i < n <= |c.fields| && TopCell(c, i, a)
    ensures RestoreTop(c, m, n)(a) == c.ptr(i)
    decreases n
  {
    if n - 1 > i {
      assert !SameKey(c, i, n - 1);
      RestoreTopThere(c, m, n - 1, i, a);
    }
  }

  lemma {:induction false} RestoreNestedElsewhere(c: Call, m: Memory, n: nat, a: nat)
    requires n <= |c.fields| && forall i: nat {:trigger NestedCell(c, i, a)} :: i < n ==> !NestedCell(c, i, a)
    ensures RestoreNested(c, m, n)(a) == m(a)
  {
    if n > 0 {
      assert !NestedCell(c, n - 1, a);
      RestoreNestedElsewhere(c, m, n - 1, a);
    }
  }

  /** A nested pointer's cell ends up with the caller's pointer, whichever field put it there. */
  lemma {:induction false} RestoreNestedThere(c: Call, m: Memory, n: nat, i: nat, a: nat)
    requires SoundFields(c) && i < n <= |c.fields| && NestedCell(c, i, a)
    ensures RestoreNested(c, m, n)(a) == c.mem(a)
    decreases n
  {
    var k := n - 1;
    assert NestedCell(c, k, a) ==> c.ptr(k) == c.mem(a) by { NestedPtr(c, k, a); }
    if k > i { RestoreNestedThere(c, m, k, i, a); }
  }

  lemma {:induction false} NestedPtr(c: Call, k: nat, a: nat)
    requires SoundFields(c) && k < |c.fields|
    ensures NestedCell(c, k, a) ==> c.ptr(k) == c.mem(a)
  {
  }

  lemma {:induction false} CopyFieldsElsewhere(c: Call, m: Memory, after: seq<seq<nat>>, n: nat, a: nat)
    requires n <= |c.fields| && Returned(c, after)
    requires forall i: nat {:trigger InBuffer(c, i, a)} :: i < n && c.fields[i].out ==> !InBuffer(c, i, a)
    ensures CopyFields(c, m, after, n)(a) == m(a)
  {
    if n > 0 {
      assert c.fields[n - 1].out ==> !InBuffer(c, n - 1, a);
      CopyFieldsElsewhere(c, m, after, n - 1, a);
    }
  }

  lemma {:induction false} CopyFieldsThere(c: Call, m: Memory, after: seq<seq<nat>>, n: nat, i: nat, a: nat)
    requires Returned(c, after) && i < n <= |c.fields| && c.fields[i].out && InBuffer(c, i, a)
    requires forall j: nat {:trigger InBuffer(c, j, a)} :: j < n && j != i ==> !InBuffer(c, j, a)
    ensures CopyFields(c, m, after, n)(a) == ResultOf(c, after, i)[a - c.ptr(i)]
    decreases n
  {
    if n == i + 1 {
      CopyFieldsJust(c, m, after, i, a);
    } else {
      CopyFieldsThere(c, m, after, n - 1, i, a);
      assert !InBuffer(c, n - 1, a);
      CopyFieldsPast(c, m, after, n - 1, a);
    }
  }

  lemma {:induction false} CopyFieldsJust(c: Call, m: Memory, after: seq<seq<nat>>, i: nat, a: nat)
    requires Returned(c, after) && i < |c.fields| && c.fields[i].out && InBuffer(c, i, a)
    ensures CopyFields(c, m, after, i + 1)(a) == ResultOf(c, after, i)[a - c.ptr(i)]
  {
    CopyFieldsNext(c, m, after, i);
  }

  lemma {:induction false} CopyFieldsPast(c: Call, m: Memory, after: seq<seq<nat>>, i: nat, a: nat)
    requires Returned(c, after) && i < |c.fields| && !InBuffer(c, i, a)
    ensures CopyFields(c, m, after, i + 1)(a) == CopyFields(c, m, after, i)(a)
  {
  }

  /** The memory after a call that the helper answered without complaint. */
  function Completed(c: Call, params: seq<nat>, after: seq<seq<nat>>): Memory
    requires Returned(c, after)
  {
    Final(c, Reply(false, params, OutBlobs(All(c), after, |All(c)|)))
  }

  /** In the order of the source: params, pointers, buffers, nested pointers. */
  function Stages(c: Call, params: seq<nat>, after: seq<seq<nat>>): Memory
    requires Returned(c, after)
  {
    var n := |c.fields|;
    RestoreNested(c, CopyFields(c, RestoreTop(c, Write(c.mem, c.params, params), n), after, n), n)
  }

  lemma {:induction false} CompletedInStages(c: Call, params: seq<nat>, after: seq<seq<nat>>)
    requires SoundFields(c) && Returned(c, after)
    ensures Completed(c, params, after) == Stages(c, params, after)
  {
    var n := |c.fields|;
    RepliesReachTheirFields(c, RestoreTop(c, Write(c.mem, c.params, params), n), after, n);
  }

  /**
    After the call each output buffer holds exactly what the callee left in
    its copy, over exactly its declared length; a pointer inside it is the
    caller's own.
   */
  lemma {:induction false} OutputsArriveWhole(c: Call, params: seq<nat>, after: seq<seq<nat>>, i: nat, a: nat)
    requires SoundFields(c) && Apart(c) && Returned(c, after) && i < |c.fields| && c.fields[i].out && InBuffer(c, i, a)
    ensures Completed(c, params, after)(a) ==
            if exists j: nat {:trigger NestedCell(c, j, a)} :: j < |c.fields| && NestedCell(c, j, a) then c.mem(a)
            else ResultOf(c, after, i)[a - c.ptr(i)]
  {
    CompletedInStages(c, params, after);
    var n := |c.fields|;
    var m := CopyFields(c, RestoreTop(c, Write(c.mem, c.params, params), n), after, n);
    if j: nat :| j < n && NestedCell(c, j, a) {
      RestoreNestedThere(c, m, n, j, a);
    } else {
      RestoreNestedElsewhere(c, m, n, a);
      OneBuffer(c, i, a);
      CopyFieldsThere(c, RestoreTop(c, Write(c.mem, c.params, params), n), after, n, i, a);
    }
  }

  lemma {:induction false} OneBuffer(c: Call, i: nat, a: nat)
    requires Apart(c) && i < |c.fields| && InBuffer(c, i, a)
    ensures forall j: nat {:trigger InBuffer(c, j, a)} :: j < |c.fields| && j != i ==> !InBuffer(c, j, a)
  {
  }

  lemma {:induction false} TopPtr(c: Call, i: nat, a: nat)
    requires SoundFields(c) && i < |c.fields| && TopCell(c, i, a)
    ensures c.ptr(i) == c.mem(a) && InParams(c, a)
  {
  }

  lemma {:induction false} NoOtherWriter(c: Call, m: Memory, after: seq<seq<nat>>, a: nat)
    requires Apart(c) && Returned(c, after) && InParams(c, a)
    ensures RestoreNested(c, CopyFields(c, m, after, |c.fields|), |c.fields|)(a) == m(a)
  {
    RestoreNestedElsewhere(c, CopyFields(c, m, after, |c.fields|), |c.fields|, a);
    CopyFieldsElsewhere(c, m, after, |c.fields|, a);
  }

  /** Every pointer field of the caller's params struct, and every nested pointer, is as it was. */
  lemma {:induction false} PointersAreTheCallers(c: Call, params: seq<nat>, after: seq<seq<nat>>, i: nat, a: nat)
    requires SoundFields(c) && Apart(c) && Returned(c, after) && i < |c.fields| && (TopCell(c, i, a) || NestedCell(c, i, a))
    ensures Completed(c, params, after)(a) == c.mem(a)
  {
    CompletedInStages(c, params, after);
    var n := |c.fields|;
    var sent := Write(c.mem, c.params, params);
    if NestedCell(c, i, a) {
      RestoreNestedThere(c, CopyFields(c, RestoreTop(c, sent, n), after, n), n, i, a);
    } else {
      TopPtr(c, i, a);
      NoOtherWriter(c, RestoreTop(c, sent, n), after, a);
      RestoreTopThere(c, sent, n, i, a);
    }
  }

  /** The other params are the callee's. */
  lemma {:induction false} ScalarsAreTheCallees(c: Call, params: seq<nat>, after: seq<seq<nat>>, a: nat)
    requires SoundFields(c) && Apart(c) && Returned(c, after) && |params| == c.size && InParams(c, a)
    requires forall i: nat {:trigger TopCell(c, i, a)} :: i < |c.fields| ==> !TopCell(c, i, a)
    ensures Completed(c, params, after)(a) == params[a - c.params]
  {
    CompletedInStages(c, params, after);
    var n := |c.fields|;
    var top := RestoreTop(c, Write(c.mem, c.params, params), n);
    NoOtherWriter(c, top, after, a);
    RestoreTopElsewhere(c, Write(c.mem, c.params, params), n, a);
  }

  /** Nothing else in the caller's memory changes, however its buffers lie. */
  lemma {:induction false} OtherMemoryIsUntouched(c: Call, params: seq<nat>, after: seq<seq<nat>>, a: nat)
    requires SoundFields(c) && Returned(c, after) && |params| == c.size && !InParams(c, a)
    requires forall i: nat {:trigger InBuffer(c, i, a)} :: i < |c.fields| && c.fields[i].out ==> !InBuffer(c, i, a)
    ensures Completed(c, params, after)(a) == c.mem(a)
  {
    CompletedInStages(c, params, after);
    var n := |c.fields|;
    var top := RestoreTop(c, Write(c.mem, c.params, params), n);
    var m := CopyFields(c, top, after, n);
    if j: nat :| j < n && NestedCell(c, j, a) {
      RestoreNestedThere(c, m, n, j, a);
    } else {
      RestoreNestedElsewhere(c, m, n, a);
      CopyFieldsElsewhere(c, top, after, n, a);
      assert forall i: nat :: i < n ==> !TopCell(c, i, a);
      RestoreTopElsewhere(c, Write(c.mem, c.params, params), n, a);
    }
  }

  /** A refused call leaves every buffer alone; the params that are no pointers are the callee's all the same. */
  lemma {:induction false} RefusalTouchesNoBuffer(c: Call, params: seq<nat>, a: nat)
    requires SoundFields(c) && |params| == c.size && !InParams(c, a)
    ensures Final(c, Reply(true, params, []))(a) == c.mem(a)
  {
    var n := |c.fields|;
    var top := RestoreTop(c, Write(c.mem, c.params, params), n);
    assert CopyBack(c, top, []) == top;
    if j: nat :| j < n && NestedCell(c, j, a) {
      RestoreNestedThere(c, top, n, j, a);
    } else {
      RestoreNestedElsewhere(c, top, n, a);
      assert forall i: nat :: i < n ==> !TopCell(c, i, a);
      RestoreTopElsewhere(c, Write(c.mem, c.params, params), n, a);
    }
  }

  /** What was sent is what the caller had: the helper's copy of field i, before any pointer in it is patched. */
  lemma {:induction false} HelperIsSentTheCallersBuffers(c: Call, i: nat, x: nat)
    requires i < |c.fields| && c.ptr(i) != 0 && x < LenOf(c, i)
    ensures Position(c, i) < |All(c)|
    ensures var sent := All(c)[Position(c, i)].data; |sent| == LenOf(c, i) && sent[x] == c.mem(c.ptr(i) + x)
  {
    BlobAt(c, i, |c.fields|);
  }

  /** No two blobs of a sound call are for one pointer, as the helper's pointers need. */
  lemma {:induction false} OwnBlobsAreDistinct(c: Call, n: nat)
    requires SoundFields(c) && n <= |c.fields|
    ensures Distinct(Blobs(c, n))
    ensures forall k :: 0 <= k < |Blobs(c, n)| ==> exists i: nat {:trigger BlobOf(c, i)} :: i < n && Blobs(c, n)[k] == BlobOf(c, i)
  {
    if n > 0 {
      OwnBlobsAreDistinct(c, n - 1);
      var before := Blobs(c, n - 1);
      if c.ptr(n - 1) != 0 {
        forall j | 0 <= j < |before| ensures !SameBlob(before[j], BlobOf(c, n - 1)) {
          var i: nat :| i < n - 1 && before[j] == BlobOf(c, i);
          assert !SameKey(c, i, n - 1);
        }
        forall k | 0 <= k < |Blobs(c, n)|
          ensures exists i: nat {:trigger BlobOf(c, i)} :: i < n && Blobs(c, n)[k] == BlobOf(c, i)
        {
          if k < |before| { assert Blobs(c, n)[k] == before[k]; } else { assert Blobs(c, n)[k] == BlobOf(c, n - 1); }
        }
      }
    }
  }

  ghost predicate SameBlob(a: Blob, b: Blob) {
    a.offset == b.offset && a.nested == b.nested && (a.nested ==> a.inner == b.inner)
  }

  // ----- a whole call -----

  /** The field that blob j is for. */
  function FieldOf(c: Call, j: nat, n: nat): (i: nat)
    requires n <= |c.fields| && j < |Blobs(c, n)|
    ensures i < n && c.ptr(i) != 0 && Position(c, i) == j && Blobs(c, n)[j] == BlobOf(c, i)
  {
    if c.ptr(n - 1) != 0 && Position(c, n - 1) == j then n - 1 else FieldOf(c, j, n - 1)
  }

  lemma {:induction false} BlobsPrefix(c: Call, i: nat, n: nat)
    requires i <= n <= |c.fields|
    ensures Blobs(c, i) <= Blobs(c, n)
    decreases n
  {
    if i < n { BlobsPrefix(c, i, n - 1); }
  }

  /** Field o is the pointer to the object that nested field i is a pointer in, and the object is long enough. */
  ghost predicate Outer(c: Call, o: nat, i: nat)
    requires o < |c.fields| && i < |c.fields|
  {
    && c.fields[o].offset == c.fields[i].offset && !c.fields[o].kind.Nested? && c.ptr(o) != 0
    && c.fields[i].elem + 8 <= LenOf(c, o)
  }

  /** The helper can place field i: its pointer is in the params, or in an object that was sent before it. */
  ghost predicate Placeable(c: Call, i: nat)
    requires i < |c.fields|
  {
    c.ptr(i) != 0 ==>
      && c.fields[i].offset + 8 <= c.size
      && (c.fields[i].kind.Nested? ==> exists o: nat {:trigger Outer(c, o, i)} :: o < i && Outer(c, o, i))
  }

  function LoadOf(c: Call, addr: nat -> nat, n: nat): Loaded
    requires n <= |All(c)|
  {
    Load(Slice(c.mem, c.params, c.size), All(c), addr, n)
  }

  /** The blob that OuterBlob finds for a nested field is its outer field's. */
  lemma {:induction false} OuterBlobIs(c: Call, i: nat)
    requires DistinctKeys(c) && i < |c.fields| && c.ptr(i) != 0
    ensures Position(c, i) < |All(c)| && All(c)[Position(c, i)] == BlobOf(c, i)
    ensures var k := Position(c, i); var o := OuterBlob(All(c), c.fields[i].offset, k);
            && (o < k && c.fields[i].elem + 8 <= |All(c)[o].data| <==> exists f: nat {:trigger Outer(c, f, i)} :: f < i && Outer(c, f, i))
            && forall f: nat {:trigger Outer(c, f, i)} :: f < i && Outer(c, f, i) ==> Position(c, f) == o
  {
    var k := Position(c, i);
    BlobAt(c, i, |c.fields|);
    BlobsPrefix(c, i, |c.fields|);
    var o := OuterBlob(All(c), c.fields[i].offset, k);
    if o < k {
      var f := FieldOf(c, o, i);
      assert All(c)[o] == Blobs(c, i)[o] == BlobOf(c, f);
      assert c.fields[i].elem + 8 <= |All(c)[o].data| <==> Outer(c, f, i);
    }
    forall f: nat | f < i && Outer(c, f, i) ensures Position(c, f) == o && o < k && c.fields[i].elem + 8 <= |All(c)[o].data| {
      OuterIsFirst(c, f, i, o);
    }
  }

  lemma {:induction false} SameKeySameField(c: Call, i: nat, j: nat)
    requires DistinctKeys(c) && i < |c.fields| && j < |c.fields| && SameKey(c, i, j)
    ensures i == j
  {
    assert SameKey(c, j, i);
  }

  lemma {:induction false} OuterIsFirst(c: Call, f: nat, i: nat, o: nat)
    requires DistinctKeys(c) && f < i < |c.fields| && c.ptr(i) != 0 && Outer(c, f, i) && Position(c, i) <= |All(c)|
    requires o == OuterBlob(All(c), c.fields[i].offset, Position(c, i))
    ensures Position(c, f) == o && o < Position(c, i) && c.fields[i].elem + 8 <= |All(c)[o].data|
  {
    BlobAt(c, f, |c.fields|);
    BlobAt(c, f, i);
    BlobsPrefix(c, i, |c.fields|);
    var p := Position(c, f);
    assert o <= p;
    if o < p {
      var g := FieldOf(c, o, i);
      assert All(c)[o] == Blobs(c, i)[o] == BlobOf(c, g);
      SameKeySameField(c, f, g);
    }
  }

  lemma {:induction false} PlacedIff(c: Call, addr: nat -> nat, i: nat)
    requires DistinctKeys(c) && i < |c.fields| && c.ptr(i) != 0 && Position(c, i) < |All(c)| && LoadOf(c, addr, Position(c, i)).Loaded?
    ensures LoadOf(c, addr, Position(c, i) + 1).Loaded? <==> Placeable(c, i)
  {
    OuterBlobIs(c, i);
  }

  /** The helper loads the first n fields of a call exactly if it can place each of them. */
  lemma {:induction false} LoadedUpTo(c: Call, addr: nat -> nat, n: nat)
    requires DistinctKeys(c) && n <= |c.fields|
    ensures Position(c, n) <= |All(c)|
    ensures LoadOf(c, addr, Position(c, n)).Loaded? <==> forall i: nat {:trigger Placeable(c, i)} :: i < n ==> Placeable(c, i)
    decreases n
  {
    PositionGrows(c, n, |c.fields|);
    if n > 0 {
      LoadedUpTo(c, addr, n - 1);
      if c.ptr(n - 1) == 0 {
        assert Placeable(c, n - 1);
      } else if LoadOf(c, addr, Position(c, n - 1)).Loaded? {
        PlacedIff(c, addr, n - 1);
      } else {
        StaysBad(Slice(c.mem, c.params, c.size), All(c), addr, Position(c, n - 1), Position(c, n));
      }
    }
  }

  /** Exactly then the whole of its own frame is loaded. */
  lemma {:induction false} OwnFrameIsLoadedIff(c: Call, addr: nat -> nat)
    requires SoundFields(c)
    ensures LoadOf(c, addr, |All(c)|).Loaded? <==> forall i: nat {:trigger Placeable(c, i)} :: i < |c.fields| ==> Placeable(c, i)
  {
    LoadedUpTo(c, addr, |c.fields|);
  }

  /** Some pointer in field i's buffer, x into it, was sent along and is the helper's now. */
  ghost predicate PointerAt(c: Call, i: nat, x: nat)
    requires i < |c.fields|
  {
    exists j: nat {:trigger Outer(c, i, j)} :: i < j < |c.fields| && c.ptr(j) != 0 && c.fields[j].kind.Nested? && Outer(c, i, j) && c.fields[j].elem == x
  }

  /** The helper's copy of field o's buffer has this pointer in it. */
  ghost predicate LeadsTo(c: Call, l: Loaded, o: nat, x: nat, at: nat)
    requires o < |c.fields| && l.Loaded?
  {
    var k := Position(c, o);
    k < |l.bufs| && x < |l.bufs[k]| && l.bufs[k][x] == at
  }

  /**
    What the callee finds: the pointer of field i, in the params or in the
    copy of its outer object, leads to a copy of the caller's buffer over its
    whole length, the pointers in it led to copies likewise, with an untouched
    red zone behind it.
   */
  lemma {:induction false} CalleeFindsTheCall(c: Call, addr: nat -> nat, i: nat)
    requires SoundFields(c) && LoadOf(c, addr, |All(c)|).Loaded? && i < |c.fields| && c.ptr(i) != 0
    ensures var l := LoadOf(c, addr, |All(c)|); var k := Position(c, i);
            && k < |l.bufs| && |l.bufs[k]| == LenOf(c, i) + BLOB_GUARD
            && (!c.fields[i].kind.Nested? ==> l.params[c.fields[i].offset] == addr(k))
            && (c.fields[i].kind.Nested? ==> exists o: nat {:trigger Outer(c, o, i)} :: o < i && Outer(c, o, i) && LeadsTo(c, l, o, c.fields[i].elem, addr(k)))
            && (forall x: nat :: x < LenOf(c, i) && !PointerAt(c, i, x) ==> l.bufs[k][x] == c.mem(c.ptr(i) + x))
            && (forall x: nat :: LenOf(c, i) <= x < LenOf(c, i) + BLOB_GUARD ==> l.bufs[k][x] == GUARD_BYTE)
  {
    var k, n := Position(c, i), |All(c)|;
    OwnBlobsAreDistinct(c, |c.fields|);
    OuterBlobIs(c, i);
    PointersLeadToCopies(Slice(c.mem, c.params, c.size), All(c), addr, n, k);
    if c.fields[i].kind.Nested? { OuterFound(c, addr, i); }
    forall x: nat | x < LenOf(c, i) && !PointerAt(c, i, x) ensures LoadOf(c, addr, n).bufs[k][x] == c.mem(c.ptr(i) + x) {
      CopyFound(c, addr, i, x);
    }
    forall x: nat | LenOf(c, i) <= x < LenOf(c, i) + BLOB_GUARD ensures LoadOf(c, addr, n).bufs[k][x] == GUARD_BYTE {
      RedZonesAreIntact(Slice(c.mem, c.params, c.size), All(c), addr, n, k, x);
    }
  }

  lemma {:induction false} OuterFound(c: Call, addr: nat -> nat, i: nat)
    requires SoundFields(c) && LoadOf(c, addr, |All(c)|).Loaded? && i < |c.fields| && c.ptr(i) != 0 && c.fields[i].kind.Nested?
    ensures Position(c, i) < |All(c)|
    ensures exists o: nat {:trigger Outer(c, o, i)} :: o < i && Outer(c, o, i)
    ensures forall o: nat {:trigger Outer(c, o, i)} :: o < i && Outer(c, o, i) ==>
              Position(c, o) == OuterBlob(All(c), c.fields[i].offset, Position(c, i))
  {
    OwnFrameIsLoadedIff(c, addr);
    assert Placeable(c, i);
    OuterBlobIs(c, i);
  }

  lemma {:induction false} CopyFound(c: Call, addr: nat -> nat, i: nat, x: nat)
    requires SoundFields(c) && LoadOf(c, addr, |All(c)|).Loaded? && i < |c.fields| && c.ptr(i) != 0
    requires x < LenOf(c, i) && !PointerAt(c, i, x)
    ensures var l := LoadOf(c, addr, |All(c)|); var k := Position(c, i);
            k < |l.bufs| && x < |l.bufs[k]| && l.bufs[k][x] == c.mem(c.ptr(i) + x)
  {
    var k, n := Position(c, i), |All(c)|;
    HelperIsSentTheCallersBuffers(c, i, x);
    forall m | k < m < n && All(c)[m].nested && OuterBlob(All(c), All(c)[m].offset, m) == k ensures All(c)[m].inner != x {
      var j := FieldOf(c, m, |c.fields|);
      OuterFound(c, addr, j);
      var o: nat :| o < j && Outer(c, o, j);
      SamePosition(c, o, i);
    }
    CopiesAreFaithful(Slice(c.mem, c.params, c.size), All(c), addr, n, k, x);
  }

  lemma {:induction false} SamePosition(c: Call, i: nat, j: nat)
    requires i < |c.fields| && j < |c.fields| && c.ptr(i) != 0 && c.ptr(j) != 0 && Position(c, i) == Position(c, j)
    ensures i == j
  {
    if i < j { PositionGrows(c, i + 1, j); }
    if j < i { PositionGrows(c, j + 1, i); }
  }

  /** The params that are no pointers are as the caller set them. */
  lemma {:induction false} CalleeFindsTheScalars(c: Call, addr: nat -> nat, x: nat)
    requires SoundFields(c) && LoadOf(c, addr, |All(c)|).Loaded? && x < c.size
    requires forall i: nat {:trigger TopCell(c, i, c.params + x)} :: i < |c.fields| ==> !TopCell(c, i, c.params + x)
    ensures LoadOf(c, addr, |All(c)|).params[x] == c.mem(c.params + x)
  {
    forall j | 0 <= j < |All(c)| && !All(c)[j].nested ensures All(c)[j].offset != x {
      var i := FieldOf(c, j, |c.fields|);
      assert !TopCell(c, i, c.params + x);
    }
    OtherParamsAsSent(Slice(c.mem, c.params, c.size), All(c), addr, |All(c)|, x);
  }

  /** Every red zone is as it was. */
  ghost predicate AllWhole(c: Call, after: seq<seq<nat>>)
    requires Returned(c, after)
  {
    forall k :: 0 <= k < |All(c)| ==> Whole(after[k], |All(c)[k].data|)
  }

  /** The helper refuses a call exactly if a red zone was written; otherwise the call completes. */
  lemma {:induction false} AnsweredIff(c: Call, params: seq<nat>, after: seq<seq<nat>>)
    requires Returned(c, after)
    ensures Answer(All(c), params, after).overflow <==> !AllWhole(c, after)
    ensures AllWhole(c, after) ==> Final(c, Answer(All(c), params, after)) == Completed(c, params, after)
    ensures !AllWhole(c, after) ==> Final(c, Answer(All(c), params, after)) == Final(c, Reply(true, params, []))
  {
  }

  lemma {:induction false} ZoneWrittenIff(c: Call, after: seq<seq<nat>>)
    requires Returned(c, after)
    ensures !AllWhole(c, after) <==>
            exists k: nat, x: nat :: k < |All(c)| && |All(c)[k].data| <= x < |after[k]| && after[k][x] != GUARD_BYTE
  {
    if k: nat, x: nat :| k < |All(c)| && |All(c)[k].data| <= x < |after[k]| && after[k][x] != GUARD_BYTE {
      assert after[k][|All(c)[k].data|..][x - |All(c)[k].data|] == after[k][x];
    }
    if k: nat :| k < |All(c)| && !Whole(after[k], |All(c)[k].data|) {
      var i :| 0 <= i < BLOB_GUARD && after[k][|All(c)[k].data|..][i] != GUARD_BYTE;
      assert after[k][|All(c)[k].data| + i] != GUARD_BYTE;
    }
  }

  /** Of a refused call too the params come back, the caller's pointers among them. */
  lemma {:induction false} RefusalReturnsTheParams(c: Call, params: seq<nat>, after: seq<seq<nat>>, a: nat)
    requires SoundFields(c) && Apart(c) && Returned(c, after) && |params| == c.size && InParams(c, a)
    ensures Final(c, Reply(true, params, []))(a) == Completed(c, params, after)(a)
    ensures (forall i: nat {:trigger TopCell(c, i, a)} :: i < |c.fields| ==> !TopCell(c, i, a)) ==>
              Final(c, Reply(true, params, []))(a) == params[a - c.params]
  {
    var n := |c.fields|;
    var top := RestoreTop(c, Write(c.mem, c.params, params), n);
    assert CopyBack(c, top, []) == top;
    RestoreNestedElsewhere(c, top, n, a);
    CompletedInStages(c, params, after);
    NoOtherWriter(c, top, after, a);
    if forall i: nat {:trigger TopCell(c, i, a)} :: i < |c.fields| ==> !TopCell(c, i, a) {
      ScalarsAreTheCallees(c, params, after, a);
    }
  }

  /**
    The helper refuses a call exactly if a byte of a red zone has changed.  The
    caller's memory does not show it exactly if none has, or if the callee left
    every buffer as it found it.
   */
  lemma {:induction false} CompletesIff(c: Call, params: seq<nat>, after: seq<seq<nat>>)
    requires SoundFields(c) && Apart(c) && Returned(c, after) && |params| == c.size
    ensures (forall a: nat :: Final(c, Answer(All(c), params, after))(a) == Completed(c, params, after)(a)) <==>
            AllWhole(c, after) || forall a: nat :: !InParams(c, a) ==> Completed(c, params, after)(a) == c.mem(a)
    ensures Answer(All(c), params, after).overflow <==>
            exists k: nat, x: nat :: k < |All(c)| && |All(c)[k].data| <= x < |after[k]| && after[k][x] != GUARD_BYTE
    ensures AllWhole(c, after) <==> !Answer(All(c), params, after).overflow
  {
    AnsweredIff(c, params, after);
    ZoneWrittenIff(c, after);
    if !AllWhole(c, after) {
      forall a: nat
        ensures Final(c, Answer(All(c), params, after))(a) == if InParams(c, a) then Completed(c, params, after)(a) else c.mem(a)
      {
        if InParams(c, a) {
          RefusalReturnsTheParams(c, params, after, a);
        } else {
          RefusalTouchesNoBuffer(c, params, a);
        }
      }
    }
  }
}
