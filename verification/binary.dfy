/**
  Fixed-width unsigned integers and the big-endian byte order used by every
  wire format of the delta engine (signature header and records, delta
  instruction headers).  Go's `uint16` and `uint64` arithmetic wraps; the
  model writes that wrap-around out with `Wrap16` and `Wrap64`.
 */
module Binary {

  type byte = x: int | 0 <= x < 0x100
  type u16 = x: int | 0 <= x < 0x1_0000
  type u32 = x: int | 0 <= x < 0x1_0000_0000
  type u64 = x: int | 0 <= x < 0x1_0000_0000_0000_0000

  const TWO16: int := 0x1_0000
  const TWO64: int := 0x1_0000_0000_0000_0000

  /** The value a Go `uint16` holds after an arithmetic result `x` wraps. */
  function Wrap16(x: int): (r: int)
    ensures 0 <= r < TWO16
  {
    x % TWO16
  }

  /** The value a Go `uint64` holds after an arithmetic result `x` wraps. */
  function Wrap64(x: int): (r: int)
    ensures 0 <= r < TWO64
    ensures 0 <= x < TWO64 ==> r == x
  {
    x % TWO64
  }

  function Pow256(n: nat): (r: nat)
    ensures r > 0
  {
    if n == 0 then 1 else 256 * Pow256(n - 1)
  }

  /** The unsigned number a big-endian byte string denotes. */
  function DecodeBE(s: seq<byte>): (r: nat)
    ensures r < Pow256(|s|)
  {
    if |s| == 0 then 0 else DecodeBE(s[..|s| - 1]) * 256 + s[|s| - 1]
  }

  /** The `n`-byte big-endian representation of `x`, most significant byte first. */
  function EncodeBE(x: nat, n: nat): (r: seq<byte>)
    requires x < Pow256(n)
    ensures |r| == n
    ensures DecodeBE(r) == x
  {
    if n == 0 then []
    else
      var prefix := EncodeBE(x / 256, n - 1);
      assert (prefix + [x % 256])[..n - 1] == prefix;
      prefix + [x % 256]
  }

  /** Decoding then re-encoding at the same width gives the bytes back. */
  lemma {:induction false} DecodeThenEncode(s: seq<byte>)
    ensures EncodeBE(DecodeBE(s), |s|) == s
  {
    if |s| > 0 {
      var init := s[..|s| - 1];
      DecodeThenEncode(init);
      assert DecodeBE(s) / 256 == DecodeBE(init);
      assert DecodeBE(s) % 256 == s[|s| - 1];
    }
  }

  /** `ByteOrder.PutUint32`: four bytes, big-endian. */
  function PutUint32(x: u32): (r: seq<byte>)
    ensures |r| == 4
    ensures Uint32(r) == x
  {
    EncodeBE(x, 4)
  }

  /** `ByteOrder.Uint32`: the inverse of `PutUint32`. */
  function Uint32(b: seq<byte>): (r: u32)
    requires |b| == 4
  {
    DecodeBE(b)
  }

  /** `ByteOrder.PutUint64`: eight bytes, big-endian. */
  function PutUint64(x: u64): (r: seq<byte>)
    ensures |r| == 8
    ensures Uint64(r) == x
  {
    EncodeBE(x, 8)
  }

  /** `ByteOrder.Uint64`: the inverse of `PutUint64`. */
  function Uint64(b: seq<byte>): (r: u64)
    requires |b| == 8
  {
    DecodeBE(b)
  }

  /** Reading four bytes as a `uint32` and writing them back is the identity. */
  lemma Uint32RoundTrip(b: seq<byte>)
    requires |b| == 4
    ensures PutUint32(Uint32(b)) == b
  {
    DecodeThenEncode(b);
  }

  /** Reading eight bytes as a `uint64` and writing them back is the identity. */
  lemma Uint64RoundTrip(b: seq<byte>)
    requires |b| == 8
    ensures PutUint64(Uint64(b)) == b
  {
    DecodeThenEncode(b);
  }
}
