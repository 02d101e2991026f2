/**
  Delta instructions and their wire format (delta.go): a 17-byte header
  (kind, big-endian 64-bit offset, big-endian 64-bit size) followed, for
  a `FromNew` instruction only, by its literal bytes.
 */
module Instructions {
  import opened Binary
  import opened Common
  import opened Streams

  /** Instruction kinds. */
  const FromOld: byte := 0
  const FromNew: byte := 1

  /** Length of a serialised instruction header. */
  const HeaderSize: nat := 17

  datatype InstructionHeader = InstructionHeader(from: byte, offset: u64, size: u64)

  /** A copy from the basis (`FromOld`) or a run of literal bytes (`FromNew`). */
  datatype Instruction = Instruction(from: byte, offset: u64, size: u64, data: seq<byte>)

  function HeaderOf(i: Instruction): InstructionHeader
  {
    InstructionHeader(i.from, i.offset, i.size)
  }

  function EncodeHeader(h: InstructionHeader): (r: seq<byte>)
    ensures |r| == HeaderSize
    ensures DecodeHeader(r) == h
  {
    var r := [h.from] + PutUint64(h.offset) + PutUint64(h.size);
    assert r[1..9] == PutUint64(h.offset);
    assert r[9..] == PutUint64(h.size);
    r
  }

  /**
    The header fields of a complete 17-byte header: the kind byte, then the
    offset and the size whose big-endian encodings are the next two
    8-byte groups.
   */
  function DecodeHeader(b: seq<byte>): (r: InstructionHeader)
    requires |b| == HeaderSize
    ensures r.from == b[0] && PutUint64(r.offset) == b[1..9] && PutUint64(r.size) == b[9..]
  {
    Uint64RoundTrip(b[1..9]);
    Uint64RoundTrip(b[9..]);
    InstructionHeader(b[0], Uint64(b[1..9]), Uint64(b[9..]))
  }

  /** Every 17-byte string is the encoding of the header it decodes to. */
  lemma HeaderBytesRoundTrip(b: seq<byte>)
    requires |b| == HeaderSize
    ensures EncodeHeader(DecodeHeader(b)) == b
  {
    Uint64RoundTrip(b[1..9]);
    Uint64RoundTrip(b[9..]);
    assert b == [b[0]] + b[1..9] + b[9..];
  }

  /**
    `writeTo`: nothing for an empty instruction; otherwise the header,
    followed by the literal bytes when the instruction is `FromNew`.
   */
  function WriteTo(i: Instruction): (r: seq<byte>)
    ensures i.size == 0 <==> r == []
    ensures i.size > 0 ==> |r| >= HeaderSize && DecodeHeader(r[..HeaderSize]) == HeaderOf(i)
    ensures i.size > 0 ==> r[HeaderSize..] == (if i.from == FromNew then i.data else [])
  {
    if i.size == 0 then []
    else
      var h := EncodeHeader(HeaderOf(i));
      var r := h + (if i.from == FromNew then i.data else []);
      assert r[..HeaderSize] == h;
      r
  }

  /** The bytes written for a sequence of instructions, in order. */
  function Serialize(d: seq<Instruction>): seq<byte>
  {
    if |d| == 0 then [] else WriteTo(d[0]) + Serialize(d[1..])
  }

  lemma {:induction false} SerializeAppend(d: seq<Instruction>, e: seq<Instruction>)
    ensures Serialize(d + e) == Serialize(d) + Serialize(e)
  {
    if |d| == 0 {
      AppendNothing(e);
    } else {
      TailOfAppend(d, e);
      SerializeAppend(d[1..], e);
      Assoc(WriteTo(d[0]), Serialize(d[1..]), Serialize(e));
    }
  }

  /**
    `ReadDeltaInstructionHeader`: end of stream when nothing remains;
    otherwise one read into a zeroed 17-byte buffer, decoded whether or
    not the read filled it.
   */
  function ReadHeader(s: seq<byte>): (r: Option<(InstructionHeader, seq<byte>)>)
    ensures r.None? <==> |s| == 0
    ensures r.Some? ==> |r.value.1| < |s|
    ensures |s| >= HeaderSize ==> r == Some((DecodeHeader(s[..HeaderSize]), s[HeaderSize..]))
  {
    if |s| == 0 then None
    else
      var (b, rest) := ReadUpTo(s, HeaderSize);
      assert |b| == HeaderSize ==> Pad(b, HeaderSize) == Pad(b, HeaderSize)[..|b|] == b;
      Some((DecodeHeader(Pad(b, HeaderSize)), rest))
  }

  /**
    `ReadDelta`: instructions until the stream is exhausted.  A `FromNew`
    instruction with a non-zero size reads its literal bytes with one
    read into a zeroed buffer of that size, which fails only when the
    stream is already exhausted; every other instruction carries no data.
   */
  function ReadDelta(s: seq<byte>): (r: Result<seq<Instruction>>)
    ensures r.Err? ==> r.error == EndOfStream
    decreases |s|
  {
    match ReadHeader(s)
    case None => Ok([])
    case Some((h, rest)) =>
      if h.from == FromNew && h.size > 0 then
        if |rest| == 0 then Err(EndOfStream)
        else
          var (chunk, rest') := ReadUpTo(rest, h.size);
          Prepend(Instruction(h.from, h.offset, h.size, Pad(chunk, h.size)), ReadDelta(rest'))
      else
        Prepend(Instruction(h.from, h.offset, h.size, []), ReadDelta(rest))
  }

  function Prepend(i: Instruction, r: Result<seq<Instruction>>): Result<seq<Instruction>>
  {
    match r
    case Err(e) => Err(e)
    case Ok(d) => Ok([i] + d)
  }

  /** An instruction carrying exactly `size` literal bytes when it is `FromNew` and none otherwise. */
  predicate Carries(i: Instruction)
  {
    |i.data| == (if i.from == FromNew then i.size else 0)
  }

  /**
    An instruction that survives a write and a read unchanged: non-empty,
    a `FromNew` one carrying exactly `size` bytes, any other none.
   */
  predicate Canonical(i: Instruction)
  {
    i.size > 0 && Carries(i)
  }

  /** Reading one canonical instruction off the front of a stream yields it and leaves the rest. */
  lemma ReadDeltaStep(i: Instruction, tail: seq<byte>)
    requires Canonical(i)
    ensures ReadDelta(WriteTo(i) + tail) == Prepend(i, ReadDelta(tail))
  {
    ReadHeaderOfWrite(i, tail);
    if i.from == FromNew {
      ReadDataOfWrite(i, tail);
    }
  }

  lemma ReadHeaderOfWrite(i: Instruction, tail: seq<byte>)
    requires i.size > 0
    ensures ReadHeader(WriteTo(i) + tail) == Some((HeaderOf(i), WriteTo(i)[HeaderSize..] + tail))
  {
    var w := WriteTo(i);
    var s := w + tail;
    assert s[..HeaderSize] == w[..HeaderSize];
    assert s[HeaderSize..] == w[HeaderSize..] + tail;
  }

  lemma ReadDataOfWrite(i: Instruction, tail: seq<byte>)
    requires Canonical(i) && i.from == FromNew
    ensures var (chunk, rest) := ReadUpTo(WriteTo(i)[HeaderSize..] + tail, i.size);
            Pad(chunk, i.size) == i.data && rest == tail
  {
    var rest := WriteTo(i)[HeaderSize..] + tail;
    assert rest == i.data + tail;
    assert rest[..i.size] == i.data;
    assert rest[i.size..] == tail;
  }

  /** Reading a serialised sequence of canonical instructions gives it back. */
  lemma {:induction false} DeltaRoundTrip(d: seq<Instruction>)
    requires forall k :: 0 <= k < |d| ==> Canonical(d[k])
    ensures ReadDelta(Serialize(d)) == Ok(d)
  {
    if |d| > 0 {
      DeltaRoundTrip(d[1..]);
      ReadDeltaStep(d[0], Serialize(d[1..]));
      assert d == [d[0]] + d[1..];
    }
  }

  lemma PrependCarries(i: Instruction, r: Result<seq<Instruction>>)
    requires Carries(i)
    requires r.Ok? ==> forall k :: 0 <= k < |r.value| ==> Carries(r.value[k])
    ensures Prepend(i, r).Ok? ==> forall k :: 0 <= k < |Prepend(i, r).value| ==> Carries(Prepend(i, r).value[k])
  {
    if r.Ok? {
      var d := [i] + r.value;
      assert forall k :: 0 < k < |d| ==> d[k] == r.value[k - 1];
    }
  }

  /** Every instruction read carries exactly `size` literal bytes when it is `FromNew` and none otherwise. */
  lemma {:induction false} ReadDeltaShape(s: seq<byte>)
    ensures ReadDelta(s).Ok? ==> forall k :: 0 <= k < |ReadDelta(s).value| ==> Carries(ReadDelta(s).value[k])
    decreases |s|
  {
    match ReadHeader(s)
    case None =>
    case Some((h, rest)) =>
      if h.from == FromNew && h.size > 0 {
        if |rest| > 0 {
          var (chunk, rest') := ReadUpTo(rest, h.size);
          ReadDeltaShape(rest');
          PrependCarries(Instruction(h.from, h.offset, h.size, Pad(chunk, h.size)), ReadDelta(rest'));
        }
      } else {
        ReadDeltaShape(rest);
        PrependCarries(Instruction(h.from, h.offset, h.size, []), ReadDelta(rest));
      }
  }
}
