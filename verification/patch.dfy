/**
  Applying a delta to a basis (patch.go).  Instruction headers are read
  until the delta is exhausted.  A `FromOld` instruction seeks the basis
  to its offset and copies `size` bytes; a `FromNew` instruction copies
  `size` bytes that follow its header in the delta.  A copy that runs out
  of bytes keeps what it copied and ends the patch without an error.
  Offsets and sizes are converted to signed 64-bit integers first: a
  negative offset makes the seek fail, a negative size copies nothing.
 */
module Patching {
  import opened Binary
  import opened Common
  import opened Instructions

  /** The first value that is negative once converted to `int64`. */
  const Int64Limit: nat := 0x8000_0000_0000_0000

  /** What a copy of `size` bytes from `offset` in `basis` yields when it stops at the end of the basis. */
  function Clamp(basis: seq<byte>, offset: nat, size: nat): (r: seq<byte>)
    ensures |r| <= size
    ensures offset + size <= |basis| ==> r == basis[offset .. offset + size]
  {
    basis[Min(offset, |basis|) .. Min(offset + size, |basis|)]
  }

  /** The bytes an instruction contributes to the patched output. */
  function Denote(basis: seq<byte>, i: Instruction): seq<byte>
  {
    if i.from == FromOld then Clamp(basis, i.offset, i.size)
    else if i.from == FromNew then i.data
    else []
  }

  /** The bytes a sequence of instructions contributes, in order. */
  function Denotes(basis: seq<byte>, d: seq<Instruction>): seq<byte>
  {
    if |d| == 0 then [] else Denote(basis, d[0]) + Denotes(basis, d[1..])
  }

  lemma {:induction false} DenotesAppend(basis: seq<byte>, d: seq<Instruction>, e: seq<Instruction>)
    ensures Denotes(basis, d + e) == Denotes(basis, d) + Denotes(basis, e)
  {
    if |d| == 0 {
      AppendNothing(e);
    } else {
      TailOfAppend(d, e);
      DenotesAppend(basis, d[1..], e);
      Assoc(Denote(basis, d[0]), Denotes(basis, d[1..]), Denotes(basis, e));
    }
  }

  function Then(prefix: seq<byte>, r: Result<seq<byte>>): Result<seq<byte>>
  {
    match r
    case Err(e) => Err(e)
    case Ok(out) => Ok(prefix + out)
  }

  /** `Patch`: the bytes written to the output, or the seek error that stopped it. */
  function Patch(basis: seq<byte>, delta: seq<byte>): (r: Result<seq<byte>>)
    ensures r.Err? ==> r.error == NegativeOffset
    decreases |delta|
  {
    match ReadHeader(delta)
    case None => Ok([])
    case Some((h, rest)) =>
      if h.from == FromOld then
        if h.offset >= Int64Limit then Err(NegativeOffset)
        else if h.size == 0 || h.size >= Int64Limit then Patch(basis, rest)
        else if h.offset + h.size <= |basis| then Then(basis[h.offset .. h.offset + h.size], Patch(basis, rest))
        else Ok(basis[Min(h.offset, |basis|)..])
      else if h.from == FromNew then
        if h.size == 0 || h.size >= Int64Limit then Patch(basis, rest)
        else if h.size <= |rest| then Then(rest[..h.size], Patch(basis, rest[h.size..]))
        else Ok(rest)
      else Patch(basis, rest)
  }

  /** An instruction whose offset and size stay non-negative as `int64`. */
  predicate Representable(i: Instruction)
  {
    i.offset < Int64Limit && i.size < Int64Limit
  }

  /** A `FromOld` instruction that lies inside the basis. */
  predicate InBasis(basis: seq<byte>, i: Instruction)
  {
    i.from == FromOld ==> i.offset + i.size <= |basis|
  }

  /** Patching with one canonical instruction in front of a stream contributes its denotation, then patches the rest. */
  lemma PatchStep(basis: seq<byte>, i: Instruction, tail: seq<byte>)
    requires Canonical(i) && Representable(i)
    ensures InBasis(basis, i) ==> Patch(basis, WriteTo(i) + tail) == Then(Denote(basis, i), Patch(basis, tail))
    ensures !InBasis(basis, i) ==> Patch(basis, WriteTo(i) + tail) == Ok(Denote(basis, i))
  {
    ReadHeaderOfWrite(i, tail);
    var rest := WriteTo(i)[HeaderSize..] + tail;
    if i.from == FromNew {
      assert rest == i.data + tail;
      assert rest[..i.size] == i.data;
      assert rest[i.size..] == tail;
    } else if i.from == FromOld {
      assert rest == tail;
      if !InBasis(basis, i) {
        assert Denote(basis, i) == basis[Min(i.offset, |basis|)..];
      }
    } else {
      assert rest == tail;
      ThenEmpty(Patch(basis, tail));
    }
  }

  lemma ThenEmpty(r: Result<seq<byte>>)
    ensures Then([], r) == r
  {
    if r.Ok? {
      assert [] + r.value == r.value;
    }
  }

  /**
    Canonical, representable instructions, all inside the basis except
    possibly the last.
   */
  predicate Patchable(basis: seq<byte>, d: seq<Instruction>)
  {
    && (forall k :: 0 <= k < |d| ==> Canonical(d[k]) && Representable(d[k]))
    && (forall k :: 0 <= k < |d| - 1 ==> InBasis(basis, d[k]))
  }

  /**
    Patching a serialised sequence of canonical, representable instructions
    outputs their denotations in order, provided every `FromOld`
    instruction except possibly the last lies inside the basis (a last one
    that does not is cut short at the end of the basis).
   */
  lemma {:induction false} PatchSerialized(basis: seq<byte>, d: seq<Instruction>)
    requires Patchable(basis, d)
    ensures Patch(basis, Serialize(d)) == Ok(Denotes(basis, d))
  {
    if |d| > 0 {
      PatchStep(basis, d[0], Serialize(d[1..]));
      if InBasis(basis, d[0]) {
        assert Patchable(basis, d[1..]) by {
          forall k | 0 <= k < |d[1..]|
            ensures Canonical(d[1..][k]) && Representable(d[1..][k])
            ensures k < |d[1..]| - 1 ==> InBasis(basis, d[1..][k])
          {
            assert d[1..][k] == d[k + 1];
          }
        }
        PatchSerialized(basis, d[1..]);
      } else {
        assert |d| == 1;
        assert d[1..] == [];
        assert Denotes(basis, d) == Denote(basis, d[0]) + Denotes(basis, []) == Denote(basis, d[0]);
        assert Serialize(d) == WriteTo(d[0]) + Serialize(d[1..]);
      }
    }
  }
}
