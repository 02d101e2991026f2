/**
  The weak rolling checksum (rollbuffer.go, after librsync's rollsum).

  Two 16-bit accumulators are kept: `s1` is the sum of the bytes, each
  offset by `RollCharOffset`, and `s2` is the sum of the successive values
  of `s1`.  Both wrap modulo 2^16 and the checksum packs them as
  `(s2 << 16) | s1`.  The one-shot function adds the bytes plainly and
  applies the offset once at the end; the rolling buffer adds the offset
  byte by byte.  This module states the one-shot closed form, models the
  unrolled Go loop, and proves that the byte-at-a-time form and the
  constant-time roll (one byte out, one byte in) agree with it.
 */
module Rollsum {
  import opened Binary

  const RollCharOffset: nat := 31

  /** Plain byte sum. */
  function Sum(p: seq<byte>): nat
  {
    if |p| == 0 then 0 else Sum(p[..|p| - 1]) + p[|p| - 1]
  }

  /** Sum of the plain sums of every non-empty prefix of `p`. */
  function PrefixSums(p: seq<byte>): nat
  {
    if |p| == 0 then 0 else PrefixSums(p[..|p| - 1]) + Sum(p)
  }

  /** Low half of the checksum: the byte sum plus 31 per byte, modulo 2^16. */
  function S1(p: seq<byte>): u16
  {
    Wrap16(Sum(p) + |p| * RollCharOffset)
  }

  /** High half of the checksum: the prefix sums plus 31·|p|(|p|+1)/2, modulo 2^16. */
  function S2(p: seq<byte>): u16
  {
    Wrap16(PrefixSums(p) + |p| * (|p| + 1) / 2 * RollCharOffset)
  }

  /** `(uint32(s2) << 16) | (uint32(s1) & 0xffff)` */
  function Pack(s1: u16, s2: u16): (r: u32)
    ensures r % TWO16 == s1 && r / TWO16 == s2
  {
    s2 * TWO16 + s1
  }

  /** The one-shot weak checksum of a block, in closed form. */
  function Checksum32(p: seq<byte>): u32
  {
    Pack(S1(p), S2(p))
  }

  /** Byte sum with the per-byte offset, accumulated as the rolling buffer does. */
  function OffsetSum(p: seq<byte>): nat
  {
    if |p| == 0 then 0 else OffsetSum(p[..|p| - 1]) + p[|p| - 1] + RollCharOffset
  }

  /** Sum of `OffsetSum` over every non-empty prefix, accumulated as the rolling buffer does. */
  function OffsetWeighted(p: seq<byte>): nat
  {
    if |p| == 0 then 0 else OffsetWeighted(p[..|p| - 1]) + OffsetSum(p)
  }

  /** 1 + 2 + ... + n */
  function Tri(n: nat): nat
  {
    if n == 0 then 0 else Tri(n - 1) + n
  }

  lemma {:induction false} TriClosedForm(n: nat)
    ensures Tri(n) == n * (n + 1) / 2
  {
    TriDoubled(n);
  }

  lemma {:induction false} TriDoubled(n: nat)
    ensures 2 * Tri(n) == n * (n + 1)
  {
    if n > 0 {
      TriDoubled(n - 1);
    }
  }

  /** The per-byte offset form is the plain form plus 31 per byte (and per prefix). */
  lemma {:induction false} OffsetFormsClosed(p: seq<byte>)
    ensures OffsetSum(p) == Sum(p) + |p| * RollCharOffset
    ensures OffsetWeighted(p) == PrefixSums(p) + Tri(|p|) * RollCharOffset
  {
    if |p| > 0 {
      OffsetFormsClosed(p[..|p| - 1]);
    }
  }

  /**
    Filling a window byte by byte (each byte offset by 31, both accumulators
    kept modulo 2^16) yields exactly the one-shot checksum.
   */
  lemma OffsetFormIsChecksum(p: seq<byte>)
    ensures Checksum32(p) == Pack(Wrap16(OffsetSum(p)), Wrap16(OffsetWeighted(p)))
  {
    OffsetFormsClosed(p);
    TriClosedForm(|p|);
  }

  /** Splitting off the oldest byte: it contributes once to `OffsetSum` and |p| times to `OffsetWeighted`. */
  lemma {:induction false} OffsetFront(x: byte, rest: seq<byte>)
    ensures OffsetSum([x] + rest) == x + RollCharOffset + OffsetSum(rest)
    ensures OffsetWeighted([x] + rest) == (|rest| + 1) * (x + RollCharOffset) + OffsetWeighted(rest)
  {
    if |rest| > 0 {
      var init := rest[..|rest| - 1];
      assert ([x] + rest)[..|rest|] == [x] + init;
      OffsetFront(x, init);
    }
  }

  /**
    Rolling a full window by one byte (`out` leaves at the front, `in`
    enters at the back), over the integers: `s1` changes by `in - out` and
    `s2` loses `|w|` copies of the offset `out` and gains the new `s1`.
   */
  lemma RollExact(w: seq<byte>, inb: byte)
    requires |w| >= 1
    ensures OffsetSum(w[1..] + [inb]) == OffsetSum(w) + inb - w[0]
    ensures OffsetWeighted(w[1..] + [inb])
         == OffsetWeighted(w) + OffsetSum(w[1..] + [inb]) - |w| * (w[0] + RollCharOffset)
  {
    var rest := w[1..];
    var w' := rest + [inb];
    var n := |w|;
    assert OffsetSum(w) == w[0] + RollCharOffset + OffsetSum(rest)
           && OffsetWeighted(w) == n * (w[0] + RollCharOffset) + OffsetWeighted(rest) by {
      assert w == [w[0]] + rest;
      OffsetFront(w[0], rest);
    }
    assert OffsetSum(w') == OffsetSum(rest) + inb + RollCharOffset
           && OffsetWeighted(w') == OffsetWeighted(rest) + OffsetSum(w') by {
      assert w'[..|rest|] == rest;
    }
  }

  /** Adding to a wrapped value wraps the same as adding to the unwrapped one. */
  lemma WrapAdd(x: int, y: int)
    ensures Wrap16(Wrap16(x) + y) == Wrap16(x + y)
  {
  }

  /** Multiplying a wrapped value wraps the same as multiplying the unwrapped one. */
  lemma WrapMul(c: int, d: int)
    ensures Wrap16(Wrap16(c) * d) == Wrap16(c * d)
  {
    var k := c / TWO16;
    assert c == TWO16 * k + Wrap16(c);
    assert c * d == TWO16 * (k * d) + Wrap16(c) * d;
    WrapMultiple(k * d, Wrap16(c) * d);
  }

  lemma WrapMultiple(k: int, y: int)
    ensures Wrap16(TWO16 * k + y) == Wrap16(y)
  {
  }

  /** `s1 += uint16(in) - uint16(out)`: the low accumulator after one roll. */
  function RollS1(s1: u16, out: byte, inb: byte): u16
  {
    Wrap16(s1 + Wrap16(inb - out))
  }

  /** `s2 += s1 - uint16(size) * (uint16(out) + 31)`, where `s1` is already rolled. */
  function RollS2(s2: u16, s1: u16, n: nat, out: byte): u16
  {
    Wrap16(s2 + Wrap16(s1 - Wrap16(Wrap16(n) * (out + RollCharOffset))))
  }

  /**
    The accumulator arithmetic of one roll: if `s1`, `s2` are the wrapped
    sums `a`, `b` of a window of length `n` whose oldest byte is `out`,
    the Go update yields the wrapped sums of the rolled window.
   */
  lemma RollArithmetic(a: int, b: int, a': int, b': int, n: nat, out: byte, inb: byte, s1: u16, s2: u16)
    requires a' == a + inb - out
    requires b' == b + a' - n * (out + RollCharOffset)
    requires s1 == Wrap16(a) && s2 == Wrap16(b)
    ensures RollS1(s1, out, inb) == Wrap16(a')
    ensures RollS2(s2, RollS1(s1, out, inb), n, out) == Wrap16(b')
  {
    assert RollS1(s1, out, inb) == Wrap16(a') by {
      WrapAdd(a, Wrap16(inb - out));
      WrapAdd(inb - out, a);
    }
    var k := out + RollCharOffset;
    WrapMul(n, k);
    WrapSubAdd(b, a', n * k, s2, RollS1(s1, out, inb), Wrap16(Wrap16(n) * k));
  }

  /** The last step of the `s2` update, with the subtracted product already wrapped. */
  lemma WrapSubAdd(b: int, a': int, t: int, s2: int, s1': int, m: int)
    requires s2 == Wrap16(b) && s1' == Wrap16(a') && m == Wrap16(t)
    ensures Wrap16(s2 + Wrap16(s1' - m)) == Wrap16(b + a' - t)
  {
    assert Wrap16(s2 + Wrap16(s1' - m)) == Wrap16(b + (s1' - m)) by {
      WrapAdd(b, Wrap16(s1' - m));
      WrapAdd(s1' - m, b);
    }
    assert Wrap16(b + (s1' - m)) == Wrap16(b + a' - m) by {
      WrapAdd(a', b - m);
    }
    WrapNeg(t, b + a');
  }

  lemma WrapNeg(t: int, y: int)
    ensures Wrap16(y - Wrap16(t)) == Wrap16(y - t)
  {
    var k := t / TWO16;
    assert t == TWO16 * k + Wrap16(t);
    assert y - Wrap16(t) == TWO16 * k + (y - t);
    WrapMultiple(k, y - t);
  }

  /**
    The constant-time roll of rollbuffer.go is exact modulo 2^16: starting
    from the accumulators of a full window `w`, the Go update for evicting
    `w[0]` and appending `inb` (every intermediate `uint16` wrap written
    out) yields the accumulators of the rolled window.
   */
  lemma RollModular(w: seq<byte>, inb: byte, s1: u16, s2: u16)
    requires |w| >= 1
    requires s1 == Wrap16(OffsetSum(w)) && s2 == Wrap16(OffsetWeighted(w))
    ensures var s1' := RollS1(s1, w[0], inb);
            s1' == Wrap16(OffsetSum(w[1..] + [inb])) && RollS2(s2, s1', |w|, w[0]) == Wrap16(OffsetWeighted(w[1..] + [inb]))
  {
    var w' := w[1..] + [inb];
    var a, b, a', b' := OffsetSum(w), OffsetWeighted(w), OffsetSum(w'), OffsetWeighted(w');
    var n, out := |w|, w[0];
    assert a' == a + inb - out && b' == b + a' - n * (out + RollCharOffset) by {
      RollExact(w, inb);
    }
    RollArithmetic(a, b, a', b', n, out, inb, s1, s2);
  }

  lemma SumsStep(p: seq<byte>, k: nat)
    requires k < |p|
    ensures Sum(p[..k + 1]) == Sum(p[..k]) + p[k]
    ensures PrefixSums(p[..k + 1]) == PrefixSums(p[..k]) + Sum(p[..k + 1])
  {
    assert p[..k + 1][..k] == p[..k];
  }

  /** One iteration of Go's accumulation loop keeps the wrapped plain sums. */
  lemma AccumulateStep(p: seq<byte>, k: nat, s1: int, s2: int)
    requires k < |p|
    requires s1 == Wrap16(Sum(p[..k])) && s2 == Wrap16(PrefixSums(p[..k]))
    ensures Wrap16(s1 + p[k]) == Wrap16(Sum(p[..k + 1]))
    ensures Wrap16(s2 + Wrap16(s1 + p[k])) == Wrap16(PrefixSums(p[..k + 1]))
  {
    SumsStep(p, k);
    WrapAdd(Sum(p[..k]), p[k]);
    WrapAdd(PrefixSums(p[..k]), Wrap16(s1 + p[k]));
    WrapAdd(Sum(p[..k + 1]), PrefixSums(p[..k]));
  }

  /** The single offset correction applied after the plain accumulation. */
  lemma OffsetCorrection(p: seq<byte>, s1: int, s2: int)
    requires s1 == Wrap16(Sum(p)) && s2 == Wrap16(PrefixSums(p))
    ensures Wrap16(s1 + Wrap16(|p| * RollCharOffset)) == S1(p)
    ensures Wrap16(s2 + Wrap16(|p| * (|p| + 1) / 2 * RollCharOffset)) == S2(p)
  {
    var l := |p|;
    WrapAdd(Sum(p), Wrap16(l * RollCharOffset));
    WrapAdd(l * RollCharOffset, Sum(p));
    WrapAdd(PrefixSums(p), Wrap16(l * (l + 1) / 2 * RollCharOffset));
    WrapAdd(l * (l + 1) / 2 * RollCharOffset, PrefixSums(p));
  }

  /** `k` iterations of Go's accumulation loop, from byte `from` on. */
  method Accumulate(p: seq<byte>, from: nat, k: nat, s1: u16, s2: u16) returns (t1: u16, t2: u16)
    requires from + k <= |p|
    requires s1 == Wrap16(Sum(p[..from])) && s2 == Wrap16(PrefixSums(p[..from]))
    ensures t1 == Wrap16(Sum(p[..from + k])) && t2 == Wrap16(PrefixSums(p[..from + k]))
  {
    t1, t2 := s1, s2;
    var i := 0;
    while i < k
      invariant 0 <= i <= k
      invariant t1 == Wrap16(Sum(p[..from + i]))
      invariant t2 == Wrap16(PrefixSums(p[..from + i]))
    {
      AccumulateStep(p, from + i, t1, t2);
      t1 := Wrap16(t1 + p[from + i]);
      t2 := Wrap16(t2 + t1);
      i := i + 1;
    }
  }

  /**
    `checksum32` as written in Go: a 16-way unrolled accumulation of the
    plain bytes with `uint16` wrap, followed by a single offset correction.
    It computes the closed-form checksum.
   */
  method Checksum32Unrolled(p: seq<byte>) returns (c: u32)
    ensures c == Checksum32(p)
  {
    var s1: u16 := 0;
    var s2: u16 := 0;
    var l := |p|;
    var n := 0;
    while n < l
      invariant 0 <= n <= l
      invariant s1 == Wrap16(Sum(p[..n]))
      invariant s2 == Wrap16(PrefixSums(p[..n]))
    {
      if n + 15 < l {
        s1, s2 := Accumulate(p, n, 16, s1, s2);
        n := n + 16;
      } else {
        s1, s2 := Accumulate(p, n, 1, s1, s2);
        n := n + 1;
      }
    }
    assert p[..l] == p;
    OffsetCorrection(p, s1, s2);
    s1 := Wrap16(s1 + Wrap16(l * RollCharOffset));
    s2 := Wrap16(s2 + Wrap16(l * (l + 1) / 2 * RollCharOffset));
    c := Pack(s1, s2);
  }
}
