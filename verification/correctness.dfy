/**
  What a delta written against a basis's signature gives back when it is
  patched onto that basis.

  The writer keeps the window's bytes back until they are either matched
  as a block or pushed out as literals; at end of input it tries one last
  lookup and flushes the accumulator, but whatever is then still in the
  window is never written.  `WriteDeltaReconstructs` states exactly that:
  patching yields the new file minus its last `|Residual|` bytes, never
  more than a block.  `WriteDeltaComplete` is the writer that also emits
  those bytes as literals, and patching its delta yields the whole new
  file.

  Both rest on the truncated strong hash telling the basis blocks apart
  from the stretches of the new file (`Separates`): without that, a
  window whose hash collides with a block is copied from the basis
  although it differs from it.
 */
module Reconstruction {
  import opened Binary
  import opened Common
  import opened Instructions
  import opened Patching
  import opened Merge
  import opened Encoder
  import R = Rolling
  import S = Signatures

  /** Emits every byte of `bytes` as a one-byte literal, in order. */
  function EmitLiterals(st: State, bytes: seq<byte>): (r: State)
    ensures r.rb == st.rb
    decreases |bytes|
  {
    if |bytes| == 0 then st
    else EmitLiterals(Emit(st, Instruction(FromNew, 0, 1, [bytes[0]])), bytes[1..])
  }

  /**
    The writer with its end of input completed: after the last lookup, the
    bytes still in the window are emitted as literals before the
    accumulator is flushed.
   */
  function CompleteInstructions(sig: S.Signature, hash: S.Hash, input: seq<byte>): seq<Instruction>
    requires Usable(sig, hash)
  {
    var st := Final(sig, hash, input);
    var st' := EmitLiterals(st, R.Bytes(st.rb));
    st'.written + Flush(st'.acc)
  }

  /** The bytes the completed writer writes. */
  function WriteDeltaComplete(sig: S.Signature, hash: S.Hash, input: seq<byte>): seq<byte>
    requires Usable(sig, hash)
  {
    Serialize(CompleteInstructions(sig, hash, input))
  }

  // ---------------------------------------------------------------------------
  // From the writer's invariant to the patched output.

  /**
    Flushing the accumulator after the instructions already written gives
    a delta that patches to exactly what was produced, when the accumulator
    ends at most `slack` bytes past the basis.
   */
  lemma FlushedDelta(basis: seq<byte>, st: State, n: nat, slack: nat)
    requires Fits(basis, slack, st.acc) && AllEmitted(basis, st.written)
    requires |Produced(basis, st)| <= n && |basis| + n + slack < Int64Limit
    ensures Patch(basis, Serialize(st.written + Flush(st.acc))) == Ok(Produced(basis, st))
  {
    var w := st.written;
    if st.acc.size == 0 {
      assert Flush(st.acc) == [] && Denote(basis, st.acc) == [];
      AppendNothing(w);
      AppendNothing(Denotes(basis, w));
      EmittedPatchable(basis, w);
      PatchSerialized(basis, w);
    } else {
      assert Flush(st.acc) == [st.acc];
      LastPatchable(basis, n, slack, st);
      PatchSerialized(basis, w + [st.acc]);
      DenotesAppend(basis, w, [st.acc]);
      assert Denotes(basis, [st.acc]) == Denote(basis, st.acc) + Denotes(basis, []);
      AppendNothing(Denote(basis, st.acc));
    }
  }

  lemma EmittedPatchable(basis: seq<byte>, w: seq<Instruction>)
    requires AllEmitted(basis, w)
    ensures Patchable(basis, w)
  {
    forall k | 0 <= k < |w|
      ensures Canonical(w[k]) && Representable(w[k]) && InBasis(basis, w[k])
    {
      assert Emitted(basis, w[k]);
    }
  }

  /** A non-empty accumulator may follow the written instructions as the last one. */
  lemma LastPatchable(basis: seq<byte>, n: nat, slack: nat, st: State)
    requires Fits(basis, slack, st.acc) && AllEmitted(basis, st.written) && st.acc.size > 0
    requires |Produced(basis, st)| <= n && |basis| + n + slack < Int64Limit
    ensures Patchable(basis, st.written + [st.acc])
  {
    var w, a := st.written, st.acc;
    if a.from == FromNew {
      assert |Denote(basis, a)| == a.size;
    }
    assert Canonical(a) && Representable(a);
    EmittedPatchable(basis, w);
    var d := w + [a];
    forall k | 0 <= k < |d|
      ensures Canonical(d[k]) && Representable(d[k])
      ensures k < |d| - 1 ==> InBasis(basis, d[k])
    {
      if k < |w| {
        assert d[k] == w[k];
      } else {
        assert d[k] == a;
      }
    }
  }

  /** Literal bytes emitted one at a time add exactly those bytes to what is produced. */
  lemma {:induction false} EmitLiteralsProduces(basis: seq<byte>, n: nat, st: State, bytes: seq<byte>)
    requires Fits(basis, 0, st.acc) && AllEmitted(basis, st.written)
    requires |Produced(basis, st)| + |bytes| <= n && |basis| + n < Int64Limit
    ensures var r := EmitLiterals(st, bytes);
            && Produced(basis, r) == Produced(basis, st) + bytes
            && Fits(basis, 0, r.acc)
            && AllEmitted(basis, r.written)
    decreases |bytes|
  {
    if |bytes| == 0 {
      AppendNothing(Produced(basis, st));
    } else {
      var lit := Instruction(FromNew, 0, 1, [bytes[0]]);
      assert Denote(basis, lit) == [bytes[0]];
      EmitProduces(basis, n, 0, st, lit);
      var st1 := Emit(st, lit);
      EmitLiteralsProduces(basis, n, st1, bytes[1..]);
      SplitFirst(Produced(basis, st), bytes);
    }
  }

  /**
    The writer's state at end of input: everything seen is what was
    produced followed by the window, every instruction written is emitted,
    and the accumulator ends within a block past the basis, or within the
    basis when the window is not empty.
   */
  lemma FinalKeeps(sig: S.Signature, basis: seq<byte>, hash: S.Hash, input: seq<byte>)
    requires SignatureOf(sig, basis, hash) && Separates(sig, basis, hash, input)
    requires |basis| + |input| + sig.header.blockSize < Int64Limit
    ensures var fin := Final(sig, hash, input);
            && input == Produced(basis, fin) + R.Bytes(fin.rb)
            && Fits(basis, sig.header.blockSize, fin.acc)
            && AllEmitted(basis, fin.written)
            && (R.Bytes(fin.rb) != [] ==> Fits(basis, 0, fin.acc))
  {
    var bs := sig.header.blockSize;
    StartKeeps(sig, basis, hash);
    AppendNothing(input);
    RunKeeps(sig, basis, hash, input, Start(sig), [], input);
    var st := Run(sig, hash, Start(sig), input);
    ProbeKeeps(sig, basis, hash, input, st, input);
  }

  /** What the window holds is at most a block. */
  lemma ResidualBound(rb: R.RollBuffer)
    requires R.Valid(rb)
    ensures |R.Bytes(rb)| <= rb.size
  {
  }

  lemma SplitAt<T>(s: seq<T>, p: seq<T>, t: seq<T>)
    requires s == p + t
    ensures p == s[..|s| - |t|] && t == s[|s| - |t|..]
  {
  }

  /**
    The writer as written, for a signature of the basis (as `WriteSignature`
    builds it, see `WrittenSignature`) whose truncated hash tells its blocks
    apart: patching the delta onto the basis gives back the new file except
    for the bytes left in the window at end of input, which are the last
    bytes of the new file and at most a block.
   */
  lemma WriteDeltaReconstructs(sig: S.Signature, basis: seq<byte>, hash: S.Hash, input: seq<byte>)
    requires SignatureOf(sig, basis, hash) && Separates(sig, basis, hash, input)
    requires |basis| + |input| + sig.header.blockSize < Int64Limit
    ensures var res := Residual(sig, hash, input);
            && |res| <= sig.header.blockSize
            && |res| <= |input|
            && res == input[|input| - |res|..]
            && Patch(basis, WriteDelta(sig, hash, input)) == Ok(input[..|input| - |res|])
  {
    var fin := Final(sig, hash, input);
    FinalKeeps(sig, basis, hash, input);
    FlushedDelta(basis, fin, |input|, sig.header.blockSize);
    ResidualBound(fin.rb);
    SplitAt(input, Produced(basis, fin), R.Bytes(fin.rb));
  }

  /** When nothing is left in the window, the round trip is exact. */
  lemma ExactWithoutResidual(sig: S.Signature, basis: seq<byte>, hash: S.Hash, input: seq<byte>)
    requires SignatureOf(sig, basis, hash) && Separates(sig, basis, hash, input)
    requires |basis| + |input| + sig.header.blockSize < Int64Limit
    requires Residual(sig, hash, input) == []
    ensures Patch(basis, WriteDelta(sig, hash, input)) == Ok(input)
  {
    WriteDeltaReconstructs(sig, basis, hash, input);
    assert input[..|input|] == input;
  }

  /**
    The completed writer, under the same hypotheses: patching its delta
    onto the basis gives back the whole new file.
   */
  lemma CompleteRoundTrip(sig: S.Signature, basis: seq<byte>, hash: S.Hash, input: seq<byte>)
    requires SignatureOf(sig, basis, hash) && Separates(sig, basis, hash, input)
    requires |basis| + |input| + sig.header.blockSize < Int64Limit
    ensures Patch(basis, WriteDeltaComplete(sig, hash, input)) == Ok(input)
  {
    var fin := Final(sig, hash, input);
    var res := R.Bytes(fin.rb);
    FinalKeeps(sig, basis, hash, input);
    var st' := EmitLiterals(fin, res);
    if res == [] {
      assert st' == fin;
      FlushedDelta(basis, fin, |input|, sig.header.blockSize);
    } else {
      EmitLiteralsProduces(basis, |input|, fin, res);
      FlushedDelta(basis, st', |input|, 0);
    }
    AppendNothing(Produced(basis, fin));
  }

  // ---------------------------------------------------------------------------
  // The bytes the writer as written drops.

  /** A one-byte digest that covers any truncation to one byte. */
  function OneByteHash(x: seq<byte>): (r: seq<byte>)
    ensures |r| == 1
  {
    [if |x| == 0 then 0 else x[0]]
  }

  /**
    Against an empty basis with 4-byte blocks, the one-byte new file `[7]`
    never leaves the window: nothing is written, and patching the empty
    delta gives back nothing at all.
   */
  lemma DropsResidual()
    ensures var sig := S.WriteSignature([], 4, 1, OneByteHash).value.sig;
            && Usable(sig, OneByteHash)
            && Residual(sig, OneByteHash, [7]) == [7]
            && WriteDelta(sig, OneByteHash, [7]) == []
            && Patch([], WriteDelta(sig, OneByteHash, [7])) == Ok([])
  {
    var hash: S.Hash := OneByteHash;
    assert S.DigestCovers(hash, 1);
    var sig := S.WriteSignature([], 4, 1, hash).value.sig;
    assert S.Blocks([], 4) == [];
    assert sig.weak == map[];
    var st0 := Start(sig);
    var st1 := Step(sig, hash, st0, 7);
    assert st1.rb.count == 1 && st1.acc == Zero && st1.written == [];
    assert Run(sig, hash, st0, [7]) == Run(sig, hash, st1, []);
    var fin := Final(sig, hash, [7]);
    assert fin == st1;
    assert R.Bytes(st1.rb) == [7];
    assert DeltaInstructions(sig, hash, [7]) == [];
  }
}
