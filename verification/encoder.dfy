/**
  The delta writer (`WriteDelta` in delta.go).  Each byte of the new file
  enters the rolling window.  Until the window is full nothing else
  happens.  Once it is, a byte pushed out of the window becomes a one-byte
  literal, and the window's weak checksum is looked up in the signature;
  when the strong hash of the window also agrees, the whole block is
  emitted as a copy from the basis and the window starts afresh.  At end
  of input one last lookup is tried on whatever the window holds, and
  the accumulator is flushed.

  Emitted instructions go through the accumulator of module `Merge`; the
  state records the instructions it flushed so far, whose serialisation
  is what the writer has written.
 */
module Encoder {
  import opened Binary
  import opened Common
  import opened Instructions
  import opened Patching
  import opened Merge
  import R = Rolling
  import S = Signatures

  /** The writer between two bytes: window, accumulator, instructions flushed so far. */
  datatype State = State(rb: R.RollBuffer, acc: Instruction, written: seq<Instruction>)

  /** What the writer needs of a signature: indices that name blocks, a block size, long enough digests. */
  ghost predicate Usable(sig: S.Signature, hash: S.Hash)
  {
    && S.Valid(sig)
    && sig.header.blockSize > 0
    && S.DigestCovers(hash, sig.header.strongSize)
  }

  function Start(sig: S.Signature): (st: State)
    requires sig.header.blockSize > 0
    ensures R.Valid(st.rb) && st.rb.size == sig.header.blockSize
  {
    State(R.NewRollBuffer(sig.header.blockSize), Zero, [])
  }

  /** `i.append(deltaWriter, next)`: whatever is flushed joins the written instructions. */
  function Emit(st: State, next: Instruction): State
  {
    var m := Append(st.acc, next);
    st.(acc := m.acc, written := st.written + m.flushed)
  }

  /** The lookup after a byte (or at end of input): a verified match becomes a block copy and resets the window. */
  function Probe(sig: S.Signature, hash: S.Hash, st: State): (r: State)
    requires Usable(sig, hash) && R.Valid(st.rb)
    ensures R.Valid(r.rb) && r.rb.size == st.rb.size
  {
    match S.Lookup(sig, R.Checksum(st.rb))
    case None => st
    case Some(f) =>
      if f.strong == hash(R.Bytes(st.rb))[..sig.header.strongSize] then
        Emit(st, Instruction(FromOld, f.offset, f.blockSize, [])).(rb := R.Reset(st.rb))
      else st
  }

  /** One byte of the new file. */
  function Step(sig: S.Signature, hash: S.Hash, st: State, b: byte): (r: State)
    requires Usable(sig, hash) && R.Valid(st.rb)
    ensures R.Valid(r.rb) && r.rb.size == st.rb.size
  {
    var w := R.WriteByte(st.rb, b);
    var st1 := st.(rb := w.rb);
    if w.rb.count < w.rb.size then st1
    else
      var st2 := if w.overwrote then Emit(st1, Instruction(FromNew, 0, 1, [w.out])) else st1;
      Probe(sig, hash, st2)
  }

  /** The writer after every byte of `input`. */
  function Run(sig: S.Signature, hash: S.Hash, st: State, input: seq<byte>): (r: State)
    requires Usable(sig, hash) && R.Valid(st.rb)
    ensures R.Valid(r.rb) && r.rb.size == st.rb.size
    decreases |input|
  {
    if |input| == 0 then st else Run(sig, hash, Step(sig, hash, st, input[0]), input[1..])
  }

  /** The state after the whole input and the last lookup at end of input. */
  function Final(sig: S.Signature, hash: S.Hash, input: seq<byte>): (r: State)
    requires Usable(sig, hash)
    ensures R.Valid(r.rb) && r.rb.size == sig.header.blockSize
  {
    Probe(sig, hash, Run(sig, hash, Start(sig), input))
  }

  /** `WriteDelta`: the instructions written, ending with the flushed accumulator. */
  function DeltaInstructions(sig: S.Signature, hash: S.Hash, input: seq<byte>): seq<Instruction>
    requires Usable(sig, hash)
  {
    var st := Final(sig, hash, input);
    st.written + Flush(st.acc)
  }

  /**
    `WriteDelta`: the bytes written to the delta.  Whatever the signature,
    `ReadDelta` reads them back as the instructions the writer emitted
    (for any input shorter than 2^64 bytes less a block).
   */
  function WriteDelta(sig: S.Signature, hash: S.Hash, input: seq<byte>): (r: seq<byte>)
    requires Usable(sig, hash)
    ensures |input| + sig.header.blockSize < TWO64 ==> ReadDelta(r) == Ok(DeltaInstructions(sig, hash, input))
  {
    var d := DeltaInstructions(sig, hash, input);
    if |input| + sig.header.blockSize < TWO64 then
      DeltaShape(sig, hash, input);
      Serialize(d)
    else
      Serialize(d)
  }

  /** The bytes still in the window when `WriteDelta` returns: nothing ever writes them. */
  function Residual(sig: S.Signature, hash: S.Hash, input: seq<byte>): seq<byte>
    requires Usable(sig, hash)
  {
    R.Bytes(Final(sig, hash, input).rb)
  }

  // ---------------------------------------------------------------------------
  // The shape of what the writer writes, whatever the basis.

  /**
    After `n` bytes of input: every written instruction is canonical, no
    two neighbours (the accumulator included) could have been merged, and
    the accumulator together with the window covers at most `n` bytes.
   */
  predicate Shaped(st: State, n: nat)
  {
    && R.Valid(st.rb)
    && (forall k :: 0 <= k < |st.written| ==> Canonical(st.written[k]))
    && Chained(st.written, st.acc)
    && Holdable(st.acc)
    && st.acc.size + Min(st.rb.count, st.rb.size) <= n
  }

  lemma StartShaped(sig: S.Signature)
    requires sig.header.blockSize > 0
    ensures Shaped(Start(sig), 0)
  {
  }

  /** Appending an instruction keeps the written instructions canonical and chained. */
  lemma EmitShaped(st: State, next: Instruction)
    requires (forall k :: 0 <= k < |st.written| ==> Canonical(st.written[k]))
    requires Chained(st.written, st.acc) && Holdable(st.acc) && Holdable(next)
    requires next.size > 0 && (next.from == FromNew ==> next.size == 1)
    requires st.acc.size + next.size < TWO64
    ensures var r := Emit(st, next);
            && (forall k :: 0 <= k < |r.written| ==> Canonical(r.written[k]))
            && Chained(r.written, r.acc) && Holdable(r.acc)
            && r.acc.size <= st.acc.size + next.size && r.rb == st.rb
  {
    var m := Append(st.acc, next);
    AppendChains(st.written, st.acc, next);
    var w := st.written + m.flushed;
    forall k | 0 <= k < |w|
      ensures Canonical(w[k])
    {
      if k >= |st.written| {
        assert w[k] == m.flushed[k - |st.written|];
      }
    }
  }

  /**
    The lookup keeps the shape; the accumulator may grow by a block, which
    the window covered when the window was full.
   */
  lemma ProbeShaped(sig: S.Signature, hash: S.Hash, st: State, n: nat)
    requires Usable(sig, hash) && Shaped(st, n) && st.rb.size == sig.header.blockSize
    requires n + sig.header.blockSize < TWO64
    ensures Shaped(Probe(sig, hash, st), n + sig.header.blockSize)
    ensures st.rb.count >= st.rb.size ==> Shaped(Probe(sig, hash, st), n)
  {
    match S.Lookup(sig, R.Checksum(st.rb))
    case None =>
    case Some(f) =>
      if f.strong == hash(R.Bytes(st.rb))[..sig.header.strongSize] {
        EmitShaped(st, Instruction(FromOld, f.offset, f.blockSize, []));
      }
  }

  lemma StepShaped(sig: S.Signature, hash: S.Hash, st: State, n: nat, b: byte)
    requires Usable(sig, hash) && Shaped(st, n) && st.rb.size == sig.header.blockSize
    requires n + 1 + sig.header.blockSize < TWO64
    ensures Shaped(Step(sig, hash, st, b), n + 1)
  {
    var w := R.WriteByte(st.rb, b);
    var st1 := st.(rb := w.rb);
    if w.rb.count >= w.rb.size {
      if w.overwrote {
        EmitShaped(st1, Instruction(FromNew, 0, 1, [w.out]));
      }
      var st2 := if w.overwrote then Emit(st1, Instruction(FromNew, 0, 1, [w.out])) else st1;
      ProbeShaped(sig, hash, st2, n + 1);
    }
  }

  lemma {:induction false} RunShaped(sig: S.Signature, hash: S.Hash, st: State, n: nat, input: seq<byte>)
    requires Usable(sig, hash) && Shaped(st, n) && st.rb.size == sig.header.blockSize
    requires n + |input| + sig.header.blockSize < TWO64
    ensures Shaped(Run(sig, hash, st, input), n + |input|)
    decreases |input|
  {
    if |input| > 0 {
      StepShaped(sig, hash, st, n, input[0]);
      RunShaped(sig, hash, Step(sig, hash, st, input[0]), n + 1, input[1..]);
    }
  }

  /**
    The instructions the writer emits, whatever the basis and the hash:
    each is canonical, so it reads back unchanged, and no two neighbours
    could have been merged (a copy never follows a copy that ends where
    it starts, and a literal run never follows a literal run).
   */
  lemma DeltaShape(sig: S.Signature, hash: S.Hash, input: seq<byte>)
    requires Usable(sig, hash) && |input| + sig.header.blockSize < TWO64
    ensures var d := DeltaInstructions(sig, hash, input);
            && (forall k :: 0 <= k < |d| ==> Canonical(d[k]))
            && (forall k :: 0 <= k < |d| - 1 ==> Separated(d[k], d[k + 1]))
            && ReadDelta(Serialize(d)) == Ok(d)
  {
    StartShaped(sig);
    RunShaped(sig, hash, Start(sig), 0, input);
    var st0 := Run(sig, hash, Start(sig), input);
    ProbeShaped(sig, hash, st0, |input|);
    var st := Final(sig, hash, input);
    FlushChains(st.written, st.acc);
    DeltaRoundTrip(st.written + Flush(st.acc));
  }

  // ---------------------------------------------------------------------------
  // What the writer keeps true.

  /** `sig` is the signature `WriteSignature` builds from `basis` with `hash`. */
  ghost predicate SignatureOf(sig: S.Signature, basis: seq<byte>, hash: S.Hash)
  {
    && Usable(sig, hash)
    && var blocks := S.Blocks(basis, sig.header.blockSize);
       && |sig.strong| == |blocks|
       && forall i :: 0 <= i < |blocks| ==> sig.strong[i] == hash(blocks[i])[..sig.header.strongSize]
  }

  lemma WrittenSignature(basis: seq<byte>, bs: u32, ss: byte, hash: S.Hash)
    requires bs > 0 && ss > 0 && S.DigestCovers(hash, ss)
    ensures SignatureOf(S.WriteSignature(basis, bs, ss, hash).value.sig, basis, hash)
  {
  }

  /**
    The truncated strong hash tells every basis block apart from every
    stretch of the new file `text` that fits in a block: those stretches
    are the only strings the writer ever hashes.  Nothing less lets the
    writer's copies be trusted: a window whose truncated hash collides
    with a block's is copied from the basis although it differs from it.
   */
  ghost predicate Separates(sig: S.Signature, basis: seq<byte>, hash: S.Hash, text: seq<byte>)
    requires Usable(sig, hash)
  {
    var bs := sig.header.blockSize;
    var ss := sig.header.strongSize;
    var blocks := S.Blocks(basis, bs);
    forall i, j, k :: 0 <= i < |blocks| && 0 <= j <= k <= |text| && k - j <= bs
                      && hash(text[j..k])[..ss] == hash(blocks[i])[..ss]
                      ==> text[j..k] == blocks[i]
  }

  /** A window that ends the bytes seen so far is a stretch of the text they begin. */
  lemma WindowInText(text: seq<byte>, seen: seq<byte>, p: seq<byte>, w: seq<byte>)
    requires seen == p + w && seen <= text
    ensures |seen| <= |text| && w == text[|p|..|seen|]
  {
    assert seen == text[..|seen|];
    assert w == seen[|p|..];
  }

  /** A prefix of a prefix of `text` is a prefix of `text`. */
  lemma PrefixOfAppend(a: seq<byte>, b: seq<byte>, text: seq<byte>)
    requires a + b <= text
    ensures a <= text
  {
    assert (a + b)[..|a|] == a;
  }

  /** The window's buffer tracks the bytes it reports. */
  ghost predicate Sound(rb: R.RollBuffer)
  {
    R.Valid(rb) && R.Models(rb, R.Bytes(rb))
  }

  /**
    An accumulator value the writer can hold: copies end at most `slack`
    bytes past the end of the basis, literals carry their bytes and start
    at offset 0.
   */
  ghost predicate Fits(basis: seq<byte>, slack: nat, i: Instruction)
  {
    && Tidy(i)
    && (i.from == FromOld || i.from == FromNew)
    && (i.from == FromOld ==> i.offset + i.size <= |basis| + slack)
    && (i.from == FromNew ==> i.offset == 0)
  }

  /** An instruction that patches back to its denotation when it is not the last one. */
  ghost predicate Emitted(basis: seq<byte>, i: Instruction)
  {
    Canonical(i) && Representable(i) && InBasis(basis, i)
  }

  /** Every instruction of `d` is `Emitted`. */
  ghost predicate AllEmitted(basis: seq<byte>, d: seq<Instruction>)
  {
    forall k :: 0 <= k < |d| ==> Emitted(basis, d[k])
  }

  lemma AllEmittedAppend(basis: seq<byte>, d: seq<Instruction>, e: seq<Instruction>)
    requires AllEmitted(basis, d) && AllEmitted(basis, e)
    ensures AllEmitted(basis, d + e)
  {
    forall k | 0 <= k < |d + e|
      ensures Emitted(basis, (d + e)[k])
    {
      if k >= |d| {
        assert (d + e)[k] == e[k - |d|];
      }
    }
  }

  /** What the flushed instructions and the accumulator stand for. */
  function Produced(basis: seq<byte>, st: State): seq<byte>
  {
    Denotes(basis, st.written) + Denote(basis, st.acc)
  }

  /**
    After consuming `seen`, everything seen is accounted for: what was
    produced followed by what the window holds.  The accumulator may end
    up to `slack` bytes past the basis; every instruction already flushed
    lies inside it.
   */
  ghost predicate InvAt(basis: seq<byte>, st: State, seen: seq<byte>, slack: nat)
  {
    && |basis| + |seen| + st.rb.size < Int64Limit
    && Sound(st.rb)
    && Fits(basis, slack, st.acc)
    && AllEmitted(basis, st.written)
    && seen == Produced(basis, st) + R.Bytes(st.rb)
  }

  /**
    Emitting an instruction adds its denotation to what is produced, as
    long as everything produced stays within the `n` bytes seen.
   */
  lemma EmitProduces(basis: seq<byte>, n: nat, slack: nat, st: State, next: Instruction)
    requires Fits(basis, 0, st.acc) && Fits(basis, slack, next)
    requires next.size > 0 && (next.from == FromNew ==> next.size == 1)
    requires |Produced(basis, st) + Denote(basis, next)| <= n
    requires |basis| + n + slack < Int64Limit
    requires AllEmitted(basis, st.written)
    ensures var r := Emit(st, next);
            && Produced(basis, r) == Produced(basis, st) + Denote(basis, next)
            && Fits(basis, slack, r.acc)
            && AllEmitted(basis, r.written)
  {
    AccBound(basis, n, st);
    EmitConcatenates(basis, st, next);
    AppendFits(basis, slack, st.acc, next);
    EmitKeepsEmitted(basis, n, st, next);
  }

  /** The accumulator ends within the basis and the bytes seen. */
  lemma AccBound(basis: seq<byte>, n: nat, st: State)
    requires Fits(basis, 0, st.acc) && |Produced(basis, st)| <= n
    ensures st.acc.offset + st.acc.size <= |basis| + n
    ensures st.acc.from == FromNew ==> st.acc.size <= n
  {
    if st.acc.from == FromNew {
      assert |Denote(basis, st.acc)| == st.acc.size;
    }
  }

  lemma EmitConcatenates(basis: seq<byte>, st: State, next: Instruction)
    requires Tidy(st.acc) && Tidy(next)
    requires next.from == FromNew ==> next.size == 1
    requires st.acc.offset + st.acc.size + next.size < TWO64
    ensures Produced(basis, Emit(st, next)) == Produced(basis, st) + Denote(basis, next)
  {
    var m := Append(st.acc, next);
    AppendDenotes(basis, st.acc, next);
    EmitAccounts(basis, st, next);
    Regroup(Denotes(basis, st.written), Denotes(basis, m.flushed), Denote(basis, m.acc), Denote(basis, st.acc), Denote(basis, next));
  }

  lemma Regroup<T>(w: seq<T>, f: seq<T>, a': seq<T>, a: seq<T>, x: seq<T>)
    requires f + a' == a + x
    ensures w + (f + a') == (w + a) + x
  {
    assert w + (a + x) == (w + a) + x;
  }

  lemma EmitKeepsEmitted(basis: seq<byte>, n: nat, st: State, next: Instruction)
    requires Fits(basis, 0, st.acc)
    requires st.acc.from == FromNew ==> st.acc.size <= n
    requires |basis| + n < Int64Limit
    requires AllEmitted(basis, st.written)
    ensures var r := Emit(st, next);
            AllEmitted(basis, r.written)
  {
    var m := Append(st.acc, next);
    assert Emit(st, next).written == st.written + m.flushed;
    if m.flushed == [] {
      AppendNothing(st.written);
    } else {
      assert Emitted(basis, st.acc);
      OneEmitted(basis, st.acc);
      AllEmittedAppend(basis, st.written, [st.acc]);
    }
  }

  lemma OneEmitted(basis: seq<byte>, i: Instruction)
    requires Emitted(basis, i)
    ensures AllEmitted(basis, [i])
  {
  }

  lemma EmitAccounts(basis: seq<byte>, st: State, next: Instruction)
    ensures var m := Append(st.acc, next);
            Produced(basis, Emit(st, next)) == Denotes(basis, st.written) + (Denotes(basis, m.flushed) + Denote(basis, m.acc))
  {
    var m := Append(st.acc, next);
    DenotesAppend(basis, st.written, m.flushed);
  }

  lemma AppendFits(basis: seq<byte>, slack: nat, acc: Instruction, next: Instruction)
    requires Fits(basis, 0, acc) && Fits(basis, slack, next) && next.size > 0
    requires Tidy(Append(acc, next).acc)
    ensures Fits(basis, slack, Append(acc, next).acc)
  {
  }

  /**
    A block copy the writer emits for a verified match denotes exactly the
    window it matched, starts inside the basis, and lies inside it when the
    window is a full block.
   */
  lemma MatchedBlock(sig: S.Signature, basis: seq<byte>, hash: S.Hash, text: seq<byte>, j: nat, window: seq<byte>, weak: u32)
    requires SignatureOf(sig, basis, hash) && Separates(sig, basis, hash, text)
    requires |basis| + sig.header.blockSize < Int64Limit
    requires |window| <= sig.header.blockSize
    requires j + |window| <= |text| && window == text[j..j + |window|]
    requires S.Lookup(sig, weak).Some?
    requires S.Lookup(sig, weak).value.strong == hash(window)[..sig.header.strongSize]
    ensures var f := S.Lookup(sig, weak).value;
            var i := Instruction(FromOld, f.offset, f.blockSize, []);
            && f.blockSize == sig.header.blockSize
            && Denote(basis, i) == window
            && f.offset < |basis|
            && (|window| == sig.header.blockSize ==> InBasis(basis, i))
  {
    var bs := sig.header.blockSize;
    var blocks := S.Blocks(basis, bs);
    var idx := sig.weak[weak];
    S.BlockAt(basis, bs, idx);
    var off := idx * bs;
    assert Wrap64(off) == off;
    assert text[j..j + |window|] == blocks[idx];
    assert Clamp(basis, off, bs) == blocks[idx];
  }

  /** Writing a byte into a sound window slides it, evicting the oldest byte once it is full. */
  lemma WriteSlides(rb: R.RollBuffer, b: byte)
    requires Sound(rb)
    ensures var w := R.WriteByte(rb, b);
            var win := R.Bytes(rb);
            && |win| <= rb.size
            && Sound(w.rb)
            && R.Bytes(w.rb) == R.Slide(win, b, rb.size)
            && (w.overwrote <==> |win| == rb.size)
            && (w.overwrote ==> w.out == win[0])
  {
    var win := R.Bytes(rb);
    R.WriteByteSlides(rb, win, b);
    var w := R.WriteByte(rb, b);
    R.BytesIsWindow(w.rb, R.Slide(win, b, rb.size));
  }

  /** The writer starts with nothing produced and an empty window. */
  lemma StartKeeps(sig: S.Signature, basis: seq<byte>, hash: S.Hash)
    requires SignatureOf(sig, basis, hash)
    requires |basis| + sig.header.blockSize < Int64Limit
    ensures InvAt(basis, Start(sig), [], 0)
  {
    var st := Start(sig);
    R.BytesIsWindow(st.rb, []);
    assert Produced(basis, st) == [];
  }

  /** Moving the oldest window byte `o` over to what was produced. */
  lemma ShiftFront<T>(p: seq<T>, o: T, t: seq<T>, b: T)
    ensures (p + ([o] + t)) + [b] == (p + [o]) + (t + [b])
  {
    assert (p + ([o] + t)) + [b] == p + [o] + t + [b];
  }

  /**
    A lookup keeps everything accounted for: a verified match moves the
    window into a block copy.  The copy lies inside the basis when the
    window was a full block; at end of input, when it may be shorter, the
    copy may run up to a block past the end of the basis.
   */
  lemma ProbeKeeps(sig: S.Signature, basis: seq<byte>, hash: S.Hash, text: seq<byte>, st: State, seen: seq<byte>)
    requires SignatureOf(sig, basis, hash) && Separates(sig, basis, hash, text)
    requires InvAt(basis, st, seen, 0) && st.rb.size == sig.header.blockSize && seen <= text
    ensures var r := Probe(sig, hash, st);
            && InvAt(basis, r, seen, if |R.Bytes(st.rb)| == sig.header.blockSize then 0 else sig.header.blockSize)
            && (r == st || R.Bytes(r.rb) == [])
  {
    var bs := sig.header.blockSize;
    var win := R.Bytes(st.rb);
    var weak := R.Checksum(st.rb);
    match S.Lookup(sig, weak)
    case None =>
    case Some(f) =>
      if f.strong == hash(win)[..sig.header.strongSize] {
        MatchKeeps(sig, basis, hash, text, st, seen, weak);
      }
  }

  /** The verified-match branch of `ProbeKeeps`. */
  lemma MatchKeeps(sig: S.Signature, basis: seq<byte>, hash: S.Hash, text: seq<byte>, st: State, seen: seq<byte>, weak: u32)
    requires SignatureOf(sig, basis, hash) && Separates(sig, basis, hash, text)
    requires InvAt(basis, st, seen, 0) && st.rb.size == sig.header.blockSize && seen <= text
    requires S.Lookup(sig, weak).Some?
    requires S.Lookup(sig, weak).value.strong == hash(R.Bytes(st.rb))[..sig.header.strongSize]
    ensures var f := S.Lookup(sig, weak).value;
            var r := Emit(st, Instruction(FromOld, f.offset, f.blockSize, [])).(rb := R.Reset(st.rb));
            && InvAt(basis, r, seen, if |R.Bytes(st.rb)| == sig.header.blockSize then 0 else sig.header.blockSize)
            && R.Bytes(r.rb) == []
  {
    var bs := sig.header.blockSize;
    var win := R.Bytes(st.rb);
    var f := S.Lookup(sig, weak).value;
    var next := Instruction(FromOld, f.offset, f.blockSize, []);
    var p := Produced(basis, st);
    WindowInText(text, seen, p, win);
    MatchedBlock(sig, basis, hash, text, |p|, win, weak);
    var slack := if |win| == bs then 0 else bs;
    EmitProduces(basis, |seen|, slack, st, next);
    var e := Emit(st, next);
    var r := e.(rb := R.Reset(st.rb));
    assert Produced(basis, r) == Produced(basis, e);
    AppendNothing(seen);
  }

  /** One byte keeps everything accounted for. */
  lemma StepKeeps(sig: S.Signature, basis: seq<byte>, hash: S.Hash, text: seq<byte>, st: State, seen: seq<byte>, b: byte)
    requires SignatureOf(sig, basis, hash) && Separates(sig, basis, hash, text)
    requires InvAt(basis, st, seen, 0) && st.rb.size == sig.header.blockSize && seen + [b] <= text
    requires |basis| + |seen| + 1 + st.rb.size < Int64Limit
    ensures InvAt(basis, Step(sig, hash, st, b), seen + [b], 0)
  {
    var w := R.WriteByte(st.rb, b);
    var st1 := st.(rb := w.rb);
    if !w.overwrote {
      FillKeeps(basis, st, seen, b);
      if w.rb.count >= w.rb.size {
        ProbeKeeps(sig, basis, hash, text, st1, seen + [b]);
      }
    } else {
      var st2 := Emit(st1, Instruction(FromNew, 0, 1, [w.out]));
      EvictKeeps(basis, st, seen, b);
      ProbeKeeps(sig, basis, hash, text, st2, seen + [b]);
    }
  }

  /** Writing a byte into a window that is not full keeps everything accounted for; a window just filled is full. */
  lemma FillKeeps(basis: seq<byte>, st: State, seen: seq<byte>, b: byte)
    requires InvAt(basis, st, seen, 0)
    requires |basis| + |seen| + 1 + st.rb.size < Int64Limit
    requires !R.WriteByte(st.rb, b).overwrote
    ensures var w := R.WriteByte(st.rb, b);
            && InvAt(basis, st.(rb := w.rb), seen + [b], 0)
            && (w.rb.count >= w.rb.size ==> |R.Bytes(w.rb)| == st.rb.size)
  {
    var win := R.Bytes(st.rb);
    WriteSlides(st.rb, b);
    var w := R.WriteByte(st.rb, b);
    var st1 := st.(rb := w.rb);
    assert Produced(basis, st1) == Produced(basis, st);
    assert R.Bytes(st1.rb) == win + [b];
    Assoc(Produced(basis, st), win, [b]);
  }

  /**
    Writing a byte into a full window keeps everything accounted for: the
    evicted byte becomes a one-byte literal and the window stays full.
   */
  lemma EvictKeeps(basis: seq<byte>, st: State, seen: seq<byte>, b: byte)
    requires InvAt(basis, st, seen, 0)
    requires |basis| + |seen| + 1 + st.rb.size < Int64Limit
    requires R.WriteByte(st.rb, b).overwrote
    ensures var w := R.WriteByte(st.rb, b);
            var st2 := Emit(st.(rb := w.rb), Instruction(FromNew, 0, 1, [w.out]));
            && InvAt(basis, st2, seen + [b], 0)
            && |R.Bytes(st2.rb)| == st.rb.size
  {
    var win := R.Bytes(st.rb);
    WriteSlides(st.rb, b);
    var w := R.WriteByte(st.rb, b);
    var st1 := st.(rb := w.rb);
    var lit := Instruction(FromNew, 0, 1, [w.out]);
    var p, t := Produced(basis, st), win[1..];
    assert Produced(basis, st1) == p;
    assert win == [w.out] + t;
    assert Denote(basis, lit) == [w.out];
    EmitProduces(basis, |seen| + 1, 0, st1, lit);
    assert R.Bytes(w.rb) == t + [b];
    ShiftFront(p, w.out, t, b);
  }

  /** Running a non-empty input is one step, then the rest. */
  lemma RunFirst(sig: S.Signature, hash: S.Hash, st: State, input: seq<byte>)
    requires Usable(sig, hash) && R.Valid(st.rb) && |input| > 0
    ensures Run(sig, hash, st, input) == Run(sig, hash, Step(sig, hash, st, input[0]), input[1..])
  {
  }

  /** The whole input keeps everything accounted for. */
  lemma {:induction false} RunKeeps(sig: S.Signature, basis: seq<byte>, hash: S.Hash, text: seq<byte>, st: State, seen: seq<byte>, input: seq<byte>)
    requires SignatureOf(sig, basis, hash) && Separates(sig, basis, hash, text)
    requires InvAt(basis, st, seen, 0) && st.rb.size == sig.header.blockSize && seen + input <= text
    requires |basis| + |seen| + |input| + st.rb.size < Int64Limit
    ensures InvAt(basis, Run(sig, hash, st, input), seen + input, 0)
    decreases |input|
  {
    if |input| == 0 {
      AppendNothing(seen);
    } else {
      var x := input[0];
      RunFirst(sig, hash, st, input);
      SplitFirst(seen, input);
      PrefixOfAppend(seen + [x], input[1..], text);
      StepKeeps(sig, basis, hash, text, st, seen, x);
      RunKeeps(sig, basis, hash, text, Step(sig, hash, st, x), seen + [x], input[1..]);
    }
  }
}
