/**
  The instruction accumulator of the delta writer (`DeltaInstruction.append`
  and `writeTo` in delta.go).  The accumulator starts as the zero
  instruction (kind `FromOld`, size 0).  A new instruction of another kind
  flushes it and takes its place; literal bytes extend a `FromNew`
  accumulator; a block copy extends a `FromOld` accumulator when it starts
  where the accumulator ends and otherwise flushes it.  Flushing writes
  nothing for an empty accumulator.
 */
module Merge {
  import opened Binary
  import opened Instructions
  import opened Patching

  /** The accumulator after an append, and what the append flushed. */
  datatype Merged = Merged(acc: Instruction, flushed: seq<Instruction>)

  /** The accumulator's zero value. */
  const Zero: Instruction := Instruction(FromOld, 0, 0, [])

  /** `writeTo` at the level of instructions: an empty accumulator writes nothing. */
  function Flush(i: Instruction): (r: seq<Instruction>)
    ensures Serialize(r) == WriteTo(i)
  {
    if i.size == 0 then [] else [i]
  }

  /** `append`, with `uint64` wrap-around on every sum as in the source. */
  function Append(acc: Instruction, next: Instruction): (r: Merged)
    ensures r.flushed == [] || (r.flushed == [acc] && acc.size > 0)
    ensures next.size == 0 ==> r == Merged(acc, [])
    ensures next.size > 0 && acc.from != next.from ==> r.acc == next && r.flushed == Flush(acc)
    ensures r.acc.from == acc.from || r.acc.from == next.from
  {
    if next.size == 0 then Merged(acc, [])
    else if acc.from != next.from then Merged(next, Flush(acc))
    else if acc.from == FromNew then
      Merged(acc.(data := acc.data + next.data, size := Wrap64(acc.size + 1)), [])
    else if acc.from == FromOld then
      if Wrap64(acc.offset + acc.size) == next.offset then
        Merged(acc.(size := Wrap64(acc.size + next.size)), [])
      else
        Merged(acc.(offset := next.offset, size := next.size), Flush(acc))
    else Merged(acc, [])
  }

  /**
    An instruction the accumulator can hold without losing track of its
    meaning: a `FromNew` one carries exactly `size` bytes, a `FromOld` one
    ends below 2^64, and any other kind carries no data.
   */
  predicate Tidy(i: Instruction)
  {
    Carries(i) && (i.from == FromOld ==> i.offset + i.size < TWO64)
  }

  /** The zero accumulator is tidy and denotes nothing. */
  lemma ZeroIsEmpty(basis: seq<byte>)
    ensures Tidy(Zero) && Denote(basis, Zero) == [] && Flush(Zero) == []
  {
  }

  lemma ClampSplit(basis: seq<byte>, offset: nat, s: nat, t: nat)
    ensures Clamp(basis, offset, s) + Clamp(basis, offset + s, t) == Clamp(basis, offset, s + t)
  {
  }

  /**
    Appending never changes what has been produced: the flushed instruction
    followed by the new accumulator denote exactly the old accumulator
    followed by the appended instruction.  Literal runs grow one byte at a
    time (the source adds 1 to the size, whatever the appended size), which
    is why an appended `FromNew` instruction must carry a single byte.
   */
  lemma AppendDenotes(basis: seq<byte>, acc: Instruction, next: Instruction)
    requires Tidy(acc) && Tidy(next)
    requires next.from == FromNew ==> next.size == 1
    requires acc.offset + acc.size + next.size < TWO64
    ensures var r := Append(acc, next);
            && Tidy(r.acc)
            && Denotes(basis, r.flushed) + Denote(basis, r.acc) == Denote(basis, acc) + Denote(basis, next)
  {
    if next.size == 0 {
      assert Denote(basis, next) == [];
    } else if acc.from != next.from {
      FlushDenotes(basis, acc);
    } else if acc.from == FromNew {
      AppendLiteral(basis, acc, next);
    } else if acc.from == FromOld {
      AppendCopy(basis, acc, next);
    }
  }

  lemma FlushDenotes(basis: seq<byte>, i: Instruction)
    requires Tidy(i)
    ensures Denotes(basis, Flush(i)) == Denote(basis, i)
  {
    if i.size > 0 {
      assert Denotes(basis, [i]) == Denote(basis, i) + Denotes(basis, []);
    }
  }

  lemma AppendLiteral(basis: seq<byte>, acc: Instruction, next: Instruction)
    requires Tidy(acc) && Tidy(next) && acc.from == next.from == FromNew && next.size == 1
    requires acc.size + 1 < TWO64
    ensures var r := Append(acc, next);
            Tidy(r.acc) && r.flushed == [] && Denote(basis, r.acc) == Denote(basis, acc) + Denote(basis, next)
  {
    var n := acc.size + 1;
    assert Wrap64(n) == n;
  }

  lemma AppendCopy(basis: seq<byte>, acc: Instruction, next: Instruction)
    requires Tidy(acc) && Tidy(next) && acc.from == next.from == FromOld && next.size > 0
    requires acc.offset + acc.size + next.size < TWO64
    ensures var r := Append(acc, next);
            Tidy(r.acc) && Denotes(basis, r.flushed) + Denote(basis, r.acc) == Denote(basis, acc) + Denote(basis, next)
  {
    var end := acc.offset + acc.size;
    assert Wrap64(end) == end;
    if end == next.offset {
      var n := acc.size + next.size;
      assert Wrap64(n) == n;
      var r := acc.(size := n);
      assert Append(acc, next) == Merged(r, []);
      ClampSplit(basis, acc.offset, acc.size, next.size);
      assert Denote(basis, r) == Denote(basis, acc) + Denote(basis, next);
    } else {
      assert Append(acc, next) == Merged(acc.(offset := next.offset, size := next.size), Flush(acc));
      FlushDenotes(basis, acc);
    }
  }

  /**
    Two neighbouring instructions the accumulator could not have merged:
    they differ in kind, or both copy from the basis and the second does
    not start where the first ends.
   */
  predicate Separated(first: Instruction, second: Instruction)
  {
    first.from != second.from || (first.from == FromOld && Wrap64(first.offset + first.size) != second.offset)
  }

  /**
    What an append flushes is separated from the accumulator that replaces
    it, and an append that flushes nothing keeps the accumulator separated
    from whatever was flushed before it.  `AppendChains` builds on this.
   */
  lemma AppendSeparates(prev: Instruction, acc: Instruction, next: Instruction)
    requires next.from == FromOld || next.from == FromNew
    ensures var r := Append(acc, next);
            && (r.flushed != [] ==> Separated(acc, r.acc))
            && (r.flushed == [] && acc.size > 0 && Separated(prev, acc) ==> Separated(prev, r.acc))
  {
  }

  /**
    Instructions flushed so far, followed by the accumulator: no two
    neighbours could have been merged, and once anything has been flushed
    the accumulator is not empty.
   */
  predicate Chained(written: seq<Instruction>, acc: Instruction)
  {
    && (forall k :: 0 <= k < |written| - 1 ==> Separated(written[k], written[k + 1]))
    && (|written| > 0 ==> acc.size > 0 && Separated(written[|written| - 1], acc))
  }

  /** What the writer ever appends or accumulates: a copy without data, or literal bytes exactly `size` long. */
  predicate Holdable(i: Instruction)
  {
    (i.from == FromOld || i.from == FromNew) && Carries(i)
  }

  /**
    Appending keeps the chain: everything flushed is canonical and
    separated from both neighbours, and the accumulator stays holdable and
    non-empty, growing by at most the appended size.
   */
  lemma AppendChains(written: seq<Instruction>, acc: Instruction, next: Instruction)
    requires Chained(written, acc) && Holdable(acc) && Holdable(next)
    requires next.size > 0 && (next.from == FromNew ==> next.size == 1)
    requires acc.size + next.size < TWO64
    ensures var r := Append(acc, next);
            && Chained(written + r.flushed, r.acc)
            && (forall k :: 0 <= k < |r.flushed| ==> Canonical(r.flushed[k]))
            && Holdable(r.acc) && 0 < r.acc.size <= acc.size + next.size
  {
    var r := Append(acc, next);
    var n := acc.size + next.size;
    assert Wrap64(n) == n;
    if |written| > 0 {
      AppendSeparates(written[|written| - 1], acc, next);
    } else {
      AppendSeparates(acc, acc, next);
    }
    ChainExtends(written, acc, r);
  }

  /** The chain grows by what an append flushes, given the separations `AppendSeparates` provides. */
  lemma ChainExtends(written: seq<Instruction>, acc: Instruction, r: Merged)
    requires Chained(written, acc) && r.acc.size > 0
    requires r.flushed == [] || (r.flushed == [acc] && acc.size > 0)
    requires r.flushed != [] ==> Separated(acc, r.acc)
    requires r.flushed == [] && |written| > 0 ==> Separated(written[|written| - 1], r.acc)
    ensures Chained(written + r.flushed, r.acc)
  {
    var w := written + r.flushed;
    if r.flushed != [] {
      forall k | 0 <= k < |w| - 1
        ensures Separated(w[k], w[k + 1])
      {
        if k < |written| - 1 {
          assert w[k] == written[k] && w[k + 1] == written[k + 1];
        } else {
          assert w[k] == written[|written| - 1] && w[k + 1] == acc;
        }
      }
    } else {
      assert w == written;
    }
  }

  /** Flushing the accumulator at the end closes the chain: the whole output is canonical and has no mergeable neighbours. */
  lemma FlushChains(written: seq<Instruction>, acc: Instruction)
    requires forall k :: 0 <= k < |written| ==> Canonical(written[k])
    requires Chained(written, acc) && Holdable(acc)
    ensures var d := written + Flush(acc);
            && (forall k :: 0 <= k < |d| ==> Canonical(d[k]))
            && (forall k :: 0 <= k < |d| - 1 ==> Separated(d[k], d[k + 1]))
  {
    var d := written + Flush(acc);
    forall k | 0 <= k < |d|
      ensures Canonical(d[k])
    {
      if k >= |written| {
        assert d[k] == acc;
      }
    }
    forall k | 0 <= k < |d| - 1
      ensures Separated(d[k], d[k + 1])
    {
      if k == |written| - 1 {
        assert d[k] == written[k] && d[k + 1] == acc;
      } else {
        assert d[k] == written[k] && d[k + 1] == written[k + 1];
      }
    }
  }
}
