/**
  RIFF chunks as include/aviriff.h steps over them: RIFFROUND pads a chunk to
  an even length, RIFFNEXT is the next chunk's address.  Both are computed in
  32 bits, so that the longest length rounds to nothing.
 */
module Riff {

  const TWO32: nat := 0x1_0000_0000
  const HEADER: nat := 8            // sizeof(RIFFCHUNK)
  const LIST: nat := 0x5453_494c    // FCC('L','I','S','T')
  const RIFF: nat := 0x4646_4952    // FCC('R','I','F','F')

  /** A chunk: data, or a list with a type and chunks inside. */
  datatype Chunk = Data(fcc: nat, payload: seq<nat>) | List(fcc: nat, kind: nat, kids: seq<Chunk>)

  /** RIFFROUND */
  function Round(cb: nat): nat { (cb + cb % 2) % TWO32 }

  function Le(n: nat, k: nat): (s: seq<nat>)
    ensures |s| == k
  {
    if k == 0 then [] else [n % 256] + Le(n / 256, k - 1)
  }

  function FromLe(s: seq<nat>): nat { if s == [] then 0 else s[0] + 256 * FromLe(s[1..]) }

  // ----- laying out -----

  function Body(c: Chunk): seq<nat>
    decreases c, 0
  {
    match c
    case Data(_, payload) => payload
    case List(_, kind, kids) => Le(kind, 4) + LayOut(kids)
  }

  function Bytes(c: Chunk): (s: seq<nat>)
    ensures |s| >= HEADER
    decreases c, 1
  {
    var body := Body(c);
    Le(c.fcc, 4) + Le(|body|, 4) + body + if |body| % 2 == 1 then [0] else []
  }

  function LayOut(chunks: seq<Chunk>): seq<nat>
    decreases chunks
  {
    if chunks == [] then [] else Bytes(chunks[0]) + LayOut(chunks[1..])
  }

  /** Codes and lengths fit their fields, and only lists are marked as lists. */
  predicate Fits(c: Chunk)
    decreases c
  {
    && c.fcc < TWO32 && |Body(c)| < TWO32 - 1
    && (if c.Data? then c.fcc != LIST && c.fcc != RIFF
        else (c.fcc == LIST || c.fcc == RIFF) && c.kind < TWO32 && AllFit(c.kids))
  }

  predicate AllFit(chunks: seq<Chunk>)
    decreases chunks
  {
    chunks != [] ==> Fits(chunks[0]) && AllFit(chunks[1..])
  }

  // ----- walking -----

  function Code(s: seq<nat>): nat
    requires |s| >= HEADER
  {
    FromLe(s[..4])
  }

  function Length(s: seq<nat>): nat
    requires |s| >= HEADER
  {
    FromLe(s[4..8])
  }

  /** RIFFNEXT, from the start of a chunk. */
  function Next(s: seq<nat>): (n: nat)
    requires |s| >= HEADER
    ensures n >= HEADER && n % 2 == 0
  {
    HEADER + Round(Length(s) % TWO32)
  }

  /** The chunks found by stepping through bytes, lists walked inside. */
  function Read(s: seq<nat>): (r: Walked)
    decreases |s|
  {
    if s == [] then Walked([])
    else if |s| < HEADER then Malformed
    else
      var cb, next := Length(s), Next(s);
      if HEADER + cb > |s| || next > |s| then Malformed
      else
        var body := s[HEADER..HEADER + cb];
        var rest := Read(s[next..]);
        if Code(s) == LIST || Code(s) == RIFF then
          if cb < 4 then Malformed
          else
            var kids := Read(body[4..]);
            if kids.Malformed? || rest.Malformed? then Malformed
            else Walked([List(Code(s), FromLe(body[..4]), kids.chunks)] + rest.chunks)
        else if rest.Malformed? then Malformed
        else Walked([Data(Code(s), body)] + rest.chunks)
  }

  datatype Walked = Malformed | Walked(chunks: seq<Chunk>)

  lemma {:induction false} FromLeOfLe(n: nat, k: nat)
    requires k <= 4 && n < Range(k)
    ensures FromLe(Le(n, k)) == n
  {
    if k > 0 {
      FromLeOfLe(n / 256, k - 1);
      assert Le(n, k)[1..] == Le(n / 256, k - 1);
    }
  }

  function Range(k: nat): nat
    requires k <= 4
  {
    match k
    case 0 => 1
    case 1 => 0x100
    case 2 => 0x1_0000
    case 3 => 0x100_0000
    case 4 => TWO32
  }

  lemma {:induction false} Slices(a: seq<nat>, b: seq<nat>, body: seq<nat>, pad: seq<nat>, rest: seq<nat>)
    requires |a| == 4 == |b|
    ensures var s := a + b + body + pad + rest;
            s[..4] == a && s[4..8] == b && s[8..8 + |body|] == body && s[8 + |body| + |pad|..] == rest
  {
  }

  /** The parts of a laid-out chunk, where it stands at the front of others. */
  lemma {:induction false} Parts(c: Chunk, rest: seq<nat>)
    requires c.fcc < TWO32 && |Body(c)| < TWO32 - 1
    ensures var s := Bytes(c) + rest;
            && |s| >= HEADER && Code(s) == c.fcc && Length(s) == |Body(c)|
            && Next(s) == |Bytes(c)| && s[HEADER..HEADER + |Body(c)|] == Body(c) && s[Next(s)..] == rest
  {
    var body := Body(c);
    var pad: seq<nat> := if |body| % 2 == 1 then [0] else [];
    var s := Bytes(c) + rest;
    Slices(Le(c.fcc, 4), Le(|body|, 4), body, pad, rest);
    assert s == Le(c.fcc, 4) + Le(|body|, 4) + body + pad + rest;
    FromLeOfLe(c.fcc, 4);
    FromLeOfLe(|body|, 4);
    Padded(|body|);
    assert Next(s) == HEADER + |body| + |pad|;
  }

  lemma {:induction false} Padded(n: nat)
    requires n < TWO32 - 1
    ensures Round(n % TWO32) == n + n % 2
  {
  }

  /** Laying out and walking undo each other, for every tree whose lengths do not wrap. */
  lemma {:induction false} ReadUndoesLayOut(chunks: seq<Chunk>)
    requires AllFit(chunks)
    ensures Read(LayOut(chunks)) == Walked(chunks)
    decreases chunks
  {
    if chunks != [] {
      var c := chunks[0];
      Parts(c, LayOut(chunks[1..]));
      ReadUndoesLayOut(chunks[1..]);
      if c.List? {
        var body := Body(c);
        assert body[..4] == Le(c.kind, 4) && body[4..] == LayOut(c.kids);
        FromLeOfLe(c.kind, 4);
        ReadUndoesLayOut(c.kids);
      }
      assert chunks == [c] + chunks[1..];
    }
  }

  // ----- a bounded walk, of any bytes -----

  /** The starts that stepping through any bytes visits, while a chunk header fits. */
  function Starts(s: seq<nat>, at: nat): seq<nat>
    decreases |s| + HEADER - at
  {
    if at + HEADER > |s| then [] else [at] + Starts(s, at + Next(s[at..]))
  }

  method Walk(s: seq<nat>) returns (starts: seq<nat>)
    ensures starts == Starts(s, 0)
  {
    starts := [];
    var at := 0;
    while at + HEADER <= |s|
      invariant starts + Starts(s, at) == Starts(s, 0)
      decreases |s| + HEADER - at
    {
      starts := starts + [at];
      at := at + Next(s[at..]);
    }
  }

  /** A list of starts from `at` on: each eight bytes or more past the one before, of one parity, none past the end. */
  ghost predicate Spaced(starts: seq<nat>, at: nat, end: nat) {
    && at <= end && |starts| * HEADER <= end - at
    && forall i :: 0 <= i < |starts| ==> at <= starts[i] <= end - HEADER && starts[i] % 2 == at % 2
  }

  lemma {:induction false} SpacedCons(starts: seq<nat>, at: nat, step: nat, end: nat)
    requires step >= HEADER && step % 2 == 0 && at + HEADER <= end
    requires if at + step <= end then Spaced(starts, at + step, end) else starts == []
    ensures Spaced([at] + starts, at, end)
  {
  }

  /** Whatever the bytes say, a walk ends within an eighth of their number of steps, on starts of one parity. */
  lemma {:induction false} WalksEnd(s: seq<nat>, at: nat)
    requires at <= |s|
    ensures Spaced(Starts(s, at), at, |s|)
    decreases |s| - at
  {
    if at + HEADER <= |s| {
      var step := Next(s[at..]);
      if at + step <= |s| { WalksEnd(s, at + step); }
      SpacedCons(Starts(s, at + step), at, step, |s|);
    }
  }

  /** Where each chunk of a layout begins. */
  function Written(chunks: seq<Chunk>, at: nat): seq<nat> {
    if chunks == [] then [] else [at] + Written(chunks[1..], at + |Bytes(chunks[0])|)
  }

  lemma {:induction false} StartsStep(s: seq<nat>, at: nat, step: nat)
    requires at + HEADER <= |s| && Next(s[at..]) == step
    ensures Starts(s, at) == [at] + Starts(s, at + step)
  {
  }

  lemma {:induction false} Join(a: seq<nat>, b: seq<nat>, c: seq<nat>)
    ensures a + (b + c) == a + b + c && (a + (b + c))[|a|..] == b + c
  {
  }

  lemma {:induction false} StepOverChunk(before: seq<nat>, c: Chunk, rest: seq<nat>)
    requires c.fcc < TWO32 && |Body(c)| < TWO32 - 1
    ensures Starts(before + (Bytes(c) + rest), |before|) == [|before|] + Starts(before + Bytes(c) + rest, |before| + |Bytes(c)|)
  {
    Parts(c, rest);
    Join(before, Bytes(c), rest);
    StartsStep(before + (Bytes(c) + rest), |before|, |Bytes(c)|);
  }

  /** Stepping visits exactly the starts that were written. */
  lemma {:induction false} WalkVisitsTheWrittenStarts(before: seq<nat>, chunks: seq<Chunk>)
    requires AllFit(chunks)
    ensures Starts(before + LayOut(chunks), |before|) == Written(chunks, |before|)
    decreases chunks
  {
    if chunks == [] {
      assert before + [] == before;
    } else {
      var first := Bytes(chunks[0]);
      StepOverChunk(before, chunks[0], LayOut(chunks[1..]));
      WalkVisitsTheWrittenStarts(before + first, chunks[1..]);
      assert |before + first| == |before| + |first|;
    }
  }

  /** A chunk of the greatest length is stepped over as if it were empty; every other one by more than its length. */
  lemma {:induction false} StepCoversTheChunkIff(s: seq<nat>)
    requires |s| >= HEADER && Length(s) < TWO32
    ensures Next(s) >= HEADER + Length(s) <==> Length(s) != TWO32 - 1
    ensures Length(s) == TWO32 - 1 ==> Next(s) == HEADER
  {
  }
}
