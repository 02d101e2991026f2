/**
  The rolling buffer of rollbuffer.go: a circular window of `size` bytes
  that keeps the weak checksum of its contents up to date as bytes are
  written in and the oldest byte falls out.

  The buffer is an immutable value here; every Go method that mutates the
  receiver becomes a function returning the new buffer.  `Models(rb, win)`
  ties a buffer to the logical window `win` it holds (oldest byte first),
  and `Holds(rb, hist)` to the whole history of bytes written since the
  last reset.
 */
module Rolling {
  import opened Binary
  import opened Common
  import opened Rollsum

  datatype RollBuffer = RollBuffer(buf: seq<byte>, size: nat, pos: nat, count: nat, s1: u16, s2: u16)

  /** Result of `writeByte`: the new buffer, the evicted byte and whether one was evicted. */
  datatype WriteResult = WriteResult(rb: RollBuffer, out: byte, overwrote: bool)

  /**
    The shape the Go code relies on: a non-empty ring, a write position
    inside it, and, while the ring is filling, a write position equal to
    the number of bytes written.  (`Aligned` states the full relation
    `pos == count mod size`, which `AfterWrites` establishes.)
   */
  predicate Valid(rb: RollBuffer)
  {
    rb.size > 0 && |rb.buf| == rb.size && rb.pos < rb.size && (rb.count < rb.size ==> rb.pos == rb.count)
  }

  /** The write position is the number of bytes written, modulo the ring size. */
  predicate Aligned(rb: RollBuffer)
    requires Valid(rb)
  {
    rb.pos == rb.count % rb.size
  }

  /** `rb` holds exactly the window `win`, oldest byte first, and its accumulators are those of `win`. */
  predicate Models(rb: RollBuffer, win: seq<byte>)
  {
    && Valid(rb)
    && (rb.count < rb.size ==> rb.count == |win| && rb.buf[..rb.count] == win)
    && (rb.count >= rb.size ==> |win| == rb.size && rb.buf[rb.pos..] + rb.buf[..rb.pos] == win)
    && rb.s1 == Wrap16(OffsetSum(win))
    && rb.s2 == Wrap16(OffsetWeighted(win))
  }

  /** The last `min(|hist|, n)` bytes of `hist`. */
  function Window(hist: seq<byte>, n: nat): (r: seq<byte>)
  {
    if |hist| <= n then hist else hist[|hist| - n..]
  }

  /** `rb` has seen exactly the bytes `hist` since its last reset. */
  predicate Holds(rb: RollBuffer, hist: seq<byte>)
  {
    rb.count == |hist| && Models(rb, Window(hist, rb.size))
  }

  /** The window after writing `b` into a window of capacity `n`. */
  function Slide(win: seq<byte>, b: byte, n: nat): seq<byte>
    requires 0 < n && |win| <= n
  {
    if |win| < n then win + [b] else win[1..] + [b]
  }

  lemma ModSmall(c: int, n: int)
    requires 0 <= c < n
    ensures c % n == c
  {
    DivModUnique(c, n, 0, c);
  }

  lemma ModSucc(c: nat, n: nat)
    requires n > 0
    ensures (c + 1) % n == (c % n + 1) % n
  {
    var q, r := c / n, c % n;
    assert c == q * n + r;
    if r + 1 < n {
      DivModUnique(c + 1, n, q, r + 1);
      ModSmall(r + 1, n);
    } else {
      DivModUnique(c + 1, n, q + 1, 0);
      assert (r + 1) % n == 0;
    }
  }

  /** Advancing a ring position modulo its size wraps to 0 only past the last slot. */
  lemma NextPos(pos: nat, n: nat)
    requires pos < n
    ensures (pos + 1) % n == if pos + 1 == n then 0 else pos + 1
  {
    if pos + 1 < n {
      ModSmall(pos + 1, n);
    } else {
      DivModUnique(n, n, 1, 0);
    }
  }

  /** `newRollBuffer(size)`: a zeroed ring holding nothing. */
  function NewRollBuffer(size: nat): (rb: RollBuffer)
    ensures |rb.buf| == size && rb.size == size
    ensures size > 0 ==> Holds(rb, [])
  {
    RollBuffer(seq(size, _ => 0), size, 0, 0, 0, 0)
  }

  /** `reset()`: forgets everything written, keeping the (now stale) storage. */
  function Reset(rb: RollBuffer): (r: RollBuffer)
    ensures r.count == 0 && r.pos == 0 && Checksum(r) == 0
    ensures r.size == rb.size
    ensures Valid(rb) ==> Holds(r, []) && Bytes(r) == []
  {
    rb.(pos := 0, count := 0, s1 := 0, s2 := 0)
  }

  /**
    `writeByte(in)`: stores `inb` at the write position.  When the ring was
    already full the byte there is evicted and returned, and the
    accumulators are rolled in constant time; otherwise `inb` is simply
    accumulated.
   */
  function WriteByte(rb: RollBuffer, inb: byte): (r: WriteResult)
    requires Valid(rb)
    ensures Valid(r.rb)
    ensures r.rb.size == rb.size && r.rb.count == rb.count + 1
    ensures r.rb.pos == if rb.pos + 1 == rb.size then 0 else rb.pos + 1
    ensures r.overwrote <==> rb.count >= rb.size
  {
    var overwrote := rb.count >= rb.size;
    var out: byte := if overwrote then rb.buf[rb.pos] else 0;
    var s1 := if overwrote then RollS1(rb.s1, out, inb)
              else Wrap16(rb.s1 + Wrap16(inb + RollCharOffset));
    var s2 := if overwrote then RollS2(rb.s2, s1, rb.size, out)
              else Wrap16(rb.s2 + s1);
    NextPos(rb.pos, rb.size);
    WriteResult(RollBuffer(rb.buf[rb.pos := inb], rb.size, (rb.pos + 1) % rb.size, rb.count + 1, s1, s2),
            out, overwrote)
  }

  /** `bytes()`: the window contents in logical order, undoing the ring rotation. */
  function Bytes(rb: RollBuffer): (r: seq<byte>)
    requires Valid(rb)
    ensures |r| == if rb.count < rb.size then rb.count else rb.size
  {
    if rb.count == 0 then []
    else if rb.count >= rb.size then
      if rb.pos == 0 then rb.buf else rb.buf[rb.pos..] + rb.buf[..rb.pos]
    else rb.buf[..rb.pos]
  }

  /** `checksum32()` of the buffer: `s1` in the low 16 bits, `s2` in the high 16 bits. */
  function Checksum(rb: RollBuffer): (r: u32)
    ensures r % TWO16 == rb.s1 && r / TWO16 == rb.s2
  {
    Pack(rb.s1, rb.s2)
  }

  lemma RotateStep(buf: seq<byte>, pos: nat, b: byte)
    requires pos < |buf|
    ensures var b' := buf[pos := b];
            var p' := if pos + 1 == |buf| then 0 else pos + 1;
            b'[p'..] + b'[..p'] == (buf[pos..] + buf[..pos])[1..] + [b]
  {
    var b' := buf[pos := b];
    assert (buf[pos..] + buf[..pos])[1..] == buf[pos + 1..] + buf[..pos];
    if pos + 1 == |buf| {
      assert b' == buf[..pos] + [b];
    } else {
      assert b'[pos + 1..] == buf[pos + 1..];
      assert b'[..pos + 1] == buf[..pos] + [b];
    }
  }

  /**
    Writing one byte slides the modelled window: it grows until it reaches
    `size` bytes and then loses its oldest byte, which is exactly the byte
    reported as overwritten.  The rolled checksum stays exact.
   */
  lemma WriteByteSlides(rb: RollBuffer, win: seq<byte>, inb: byte)
    requires Models(rb, win)
    ensures |win| <= rb.size
    ensures var r := WriteByte(rb, inb);
            && Models(r.rb, Slide(win, inb, rb.size))
            && (r.overwrote <==> |win| == rb.size)
            && (r.overwrote ==> r.out == win[0])
  {
    if rb.count < rb.size {
      WriteByteFills(rb, win, inb);
    } else {
      WriteByteRolls(rb, win, inb);
    }
  }

  lemma WriteByteFills(rb: RollBuffer, win: seq<byte>, inb: byte)
    requires Models(rb, win) && rb.count < rb.size
    ensures Models(WriteByte(rb, inb).rb, win + [inb])
  {
    FillRing(rb, win, inb);
    FillSums(win, inb, rb.s1, rb.s2);
  }

  /** The ring after a byte is added to a window that is not yet full. */
  lemma FillRing(rb: RollBuffer, win: seq<byte>, inb: byte)
    requires Models(rb, win) && rb.count < rb.size
    ensures var r := WriteByte(rb, inb).rb;
            && (r.count < r.size ==> r.count == |win + [inb]| && r.buf[..r.count] == win + [inb])
            && (r.count >= r.size ==> |win + [inb]| == r.size && r.buf[r.pos..] + r.buf[..r.pos] == win + [inb])
  {
    var r := WriteByte(rb, inb).rb;
    var win' := win + [inb];
    assert r.buf == rb.buf[rb.pos := inb];
    assert r.buf[..r.count] == win' by {
      assert r.buf[..r.count] == rb.buf[..rb.count] + [inb];
    }
    if r.count == rb.size {
      assert r.buf[..r.count] == r.buf;
    }
  }

  /** The accumulators after a byte is added to a window that is not yet full. */
  lemma FillSums(win: seq<byte>, inb: byte, s1: u16, s2: u16)
    requires s1 == Wrap16(OffsetSum(win)) && s2 == Wrap16(OffsetWeighted(win))
    ensures var s1' := Wrap16(s1 + Wrap16(inb + RollCharOffset));
            s1' == Wrap16(OffsetSum(win + [inb])) && Wrap16(s2 + s1') == Wrap16(OffsetWeighted(win + [inb]))
  {
    var win' := win + [inb];
    assert win'[..|win|] == win;
    var s1' := Wrap16(s1 + Wrap16(inb + RollCharOffset));
    assert s1' == Wrap16(OffsetSum(win')) by {
      WrapAdd(OffsetSum(win), inb + RollCharOffset);
      WrapAdd(inb + RollCharOffset, OffsetSum(win));
    }
    WrapAdd(OffsetWeighted(win), s1');
    WrapAdd(OffsetSum(win'), OffsetWeighted(win));
  }

  lemma WriteByteRolls(rb: RollBuffer, win: seq<byte>, inb: byte)
    requires Models(rb, win) && rb.count >= rb.size
    ensures var r := WriteByte(rb, inb);
            Models(r.rb, win[1..] + [inb]) && r.out == win[0]
  {
    var r := WriteByte(rb, inb).rb;
    assert win[0] == rb.buf[rb.pos];
    RotateStep(rb.buf, rb.pos, inb);
    RollModular(win, inb, rb.s1, rb.s2);
  }

  /** `Window` of a history extended by one byte is the slid window. */
  lemma WindowSlide(hist: seq<byte>, b: byte, n: nat)
    requires n > 0
    ensures |Window(hist, n)| <= n
    ensures Window(hist + [b], n) == Slide(Window(hist, n), b, n)
    ensures |hist| >= n ==> Window(hist, n)[0] == hist[|hist| - n]
  {
    var h' := hist + [b];
    if |hist| > n {
      assert h'[|h'| - n..] == hist[|hist| - n..][1..] + [b];
    } else if |hist| == n {
      assert h'[|h'| - n..] == hist[1..] + [b];
    }
  }

  /**
    `writeByte` in terms of the history since reset: it reports an
    overwrite exactly when at least `size` bytes were already written, the
    byte it returns is the one written `size` writes earlier, and the
    buffer then holds the extended history.
   */
  lemma WriteByteHistory(rb: RollBuffer, hist: seq<byte>, inb: byte)
    requires Holds(rb, hist)
    ensures var r := WriteByte(rb, inb);
            && Holds(r.rb, hist + [inb])
            && (r.overwrote <==> |hist| >= rb.size)
            && (r.overwrote ==> r.out == hist[|hist| - rb.size])
  {
    WindowSlide(hist, inb, rb.size);
    WriteByteSlides(rb, Window(hist, rb.size), inb);
  }

  /** `bytes()` returns the modelled window. */
  lemma BytesIsWindow(rb: RollBuffer, win: seq<byte>)
    requires Models(rb, win)
    ensures Bytes(rb) == win
  {
  }

  /** The buffer's checksum is the one-shot checksum of the modelled window. */
  lemma ChecksumIsOneShot(rb: RollBuffer, win: seq<byte>)
    requires Models(rb, win)
    ensures Checksum(rb) == Checksum32(win)
  {
    OffsetFormIsChecksum(win);
  }

  /** Writes every byte of `bs` in turn, discarding what `writeByte` returns. */
  function WriteAll(rb: RollBuffer, bs: seq<byte>): (r: RollBuffer)
    requires Valid(rb)
    ensures Valid(r) && r.size == rb.size
    decreases |bs|
  {
    if |bs| == 0 then rb else WriteAll(WriteByte(rb, bs[0]).rb, bs[1..])
  }

  lemma {:induction false} WriteAllHolds(rb: RollBuffer, hist: seq<byte>, bs: seq<byte>)
    requires Holds(rb, hist)
    ensures Holds(WriteAll(rb, bs), hist + bs)
    decreases |bs|
  {
    if |bs| > 0 {
      var r1 := WriteByte(rb, bs[0]).rb;
      WriteAllFirst(rb, hist, bs);
      WriteByteHistory(rb, hist, bs[0]);
      WriteAllHolds(r1, hist + [bs[0]], bs[1..]);
    } else {
      assert hist + bs == hist;
    }
  }

  /** Writing a non-empty sequence is writing its first byte, then the rest. */
  lemma WriteAllFirst(rb: RollBuffer, hist: seq<byte>, bs: seq<byte>)
    requires Valid(rb) && |bs| > 0
    ensures WriteAll(rb, bs) == WriteAll(WriteByte(rb, bs[0]).rb, bs[1..])
    ensures hist + bs == (hist + [bs[0]]) + bs[1..]
  {
    assert bs == [bs[0]] + bs[1..];
    assert hist + ([bs[0]] + bs[1..]) == (hist + [bs[0]]) + bs[1..];
  }

  /** Writing keeps the write position at the byte count modulo the ring size. */
  lemma WriteByteAligned(rb: RollBuffer, inb: byte)
    requires Valid(rb) && Aligned(rb)
    ensures Aligned(WriteByte(rb, inb).rb)
  {
    ModSucc(rb.count, rb.size);
  }

  lemma {:induction false} WriteAllAligned(rb: RollBuffer, bs: seq<byte>)
    requires Valid(rb) && Aligned(rb)
    ensures Aligned(WriteAll(rb, bs))
    decreases |bs|
  {
    if |bs| > 0 {
      WriteByteAligned(rb, bs[0]);
      WriteAllAligned(WriteByte(rb, bs[0]).rb, bs[1..]);
    }
  }

  /**
    After a reset and any sequence of writes: `count` is the number of
    bytes written, `pos == count mod size`, `bytes()` is the last
    `min(count, size)` of them oldest first, and the buffer's checksum is
    the one-shot checksum of exactly those bytes.
   */
  lemma AfterWrites(rb: RollBuffer, bs: seq<byte>)
    requires Valid(rb)
    ensures var r := WriteAll(Reset(rb), bs);
            && r.count == |bs|
            && r.pos == |bs| % rb.size
            && Bytes(r) == Window(bs, rb.size)
            && Checksum(r) == Checksum32(Window(bs, rb.size))
  {
    WriteAllHolds(Reset(rb), [], bs);
    WriteAllAligned(Reset(rb), bs);
    assert [] + bs == bs;
    var r := WriteAll(Reset(rb), bs);
    BytesIsWindow(r, Window(bs, rb.size));
    ChecksumIsOneShot(r, Window(bs, rb.size));
  }
}
