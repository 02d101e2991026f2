/**
  Reading from a stream the way a file or a byte buffer delivers it: one
  read returns as many bytes as remain, up to the size of the buffer, and
  reports end of stream only when nothing remains and the buffer is not
  empty; a read into an empty buffer always succeeds.  Bytes of the buffer
  the read does not reach keep whatever they held before.
 */
module Streams {
  import opened Binary
  import opened Common

  /** One `Read` of at most `n` bytes: what it delivers and the rest of the stream. */
  function ReadUpTo(s: seq<byte>, n: nat): (r: (seq<byte>, seq<byte>))
    ensures r.0 + r.1 == s
    ensures |r.0| == Min(n, |s|)
  {
    (s[..Min(n, |s|)], s[Min(n, |s|)..])
  }

  /** A buffer whose first `|b|` bytes a read filled and whose other bytes keep what they held before, `prev`. */
  function Overwrite(b: seq<byte>, prev: seq<byte>): (r: seq<byte>)
    requires |b| <= |prev|
    ensures |r| == |prev| && r[..|b|] == b
    ensures forall k :: |b| <= k < |prev| ==> r[k] == prev[k]
  {
    b + prev[|b|..]
  }

  /** `n` zero bytes: a freshly allocated buffer. */
  function Zeros(n: nat): (r: seq<byte>)
    ensures |r| == n && forall k :: 0 <= k < n ==> r[k] == 0
  {
    seq(n, _ => 0)
  }

  /** A fresh buffer of `n` bytes of which the first `|b|` were filled by a read. */
  function Pad(b: seq<byte>, n: nat): (r: seq<byte>)
    requires |b| <= n
    ensures |r| == n && r[..|b|] == b
    ensures forall k :: |b| <= k < n ==> r[k] == 0
  {
    Overwrite(b, Zeros(n))
  }

  /** A read that fills the whole buffer leaves nothing of what the buffer held. */
  lemma OverwriteFull(b: seq<byte>, prev: seq<byte>)
    requires |b| == |prev|
    ensures Overwrite(b, prev) == b
  {
    assert Overwrite(b, prev) == Overwrite(b, prev)[..|b|];
  }
}
