/**
  The signature of a basis (signature.go): the basis is cut into
  `blockSize` blocks (only the last may be shorter); each block gets a
  weak checksum and a strong hash truncated to `strongSize` bytes.  The
  signature is serialised as a 5-byte header followed by one
  `(weak, strong)` record per block, and indexed by a map from weak
  checksum to block index in which the last block written wins.

  The strong hash (md5 in the source) is the parameter `hash`.
 */
module Signatures {
  import opened Binary
  import opened Common
  import opened Rollsum
  import opened Streams

  /** A strong hash: a digest of a byte block. */
  type Hash = seq<byte> -> seq<byte>

  datatype Header = Header(blockSize: u32, strongSize: byte)

  datatype Signature = Signature(header: Header, weak: map<u32, nat>, strong: seq<seq<byte>>)

  /** What `Lookup` returns for a known weak checksum. */
  datatype Found = Found(strong: seq<byte>, offset: u64, blockSize: u32)

  /** A signature together with the bytes written for it. */
  datatype Written = Written(sig: Signature, out: seq<byte>)

  /** Every indexed block exists, which `Lookup` relies on to index `strong`. */
  predicate Valid(sig: Signature)
  {
    forall k :: k in sig.weak ==> sig.weak[k] < |sig.strong|
  }

  /** Every digest can be truncated to `n` bytes (a longer truncation panics in the source). */
  ghost predicate DigestCovers(hash: Hash, n: nat)
  {
    forall b :: n <= |hash(b)|
  }

  /**
    The blocks `io.ReadFull` delivers: consecutive `bs`-byte chunks of the
    basis, the last one possibly shorter, none empty.
   */
  function Blocks(basis: seq<byte>, bs: nat): (r: seq<seq<byte>>)
    requires bs > 0
    ensures forall i :: 0 <= i < |r| ==> 0 < |r[i]| <= bs
    ensures forall i :: 0 <= i < |r| - 1 ==> |r[i]| == bs
    decreases |basis|
  {
    if |basis| == 0 then []
    else if |basis| <= bs then [basis]
    else [basis[..bs]] + Blocks(basis[bs..], bs)
  }

  /** The blocks, concatenated in order, are the basis: nothing is lost, repeated or reordered. */
  lemma {:induction false} BlocksCover(basis: seq<byte>, bs: nat)
    requires bs > 0
    ensures Flatten(Blocks(basis, bs)) == basis
    decreases |basis|
  {
    var r := Blocks(basis, bs);
    if |basis| == 0 {
    } else if |basis| <= bs {
      assert Flatten(r) == basis + Flatten([]);
    } else {
      BlocksCover(basis[bs..], bs);
      assert r[1..] == Blocks(basis[bs..], bs);
      assert basis == basis[..bs] + basis[bs..];
    }
  }

  lemma MulSucc(a: int, b: int)
    ensures (a + 1) * b == a * b + b
  {
  }

  /** There are `ceil(|basis| / bs)` blocks: one more block would start past the end, one fewer would not reach it. */
  lemma {:induction false} BlockCount(basis: seq<byte>, bs: nat)
    requires bs > 0
    ensures (|Blocks(basis, bs)| - 1) * bs < |basis| <= |Blocks(basis, bs)| * bs
    decreases |basis|
  {
    if |basis| > bs {
      var rest := basis[bs..];
      var n := |Blocks(rest, bs)|;
      assert |Blocks(basis, bs)| == n + 1;
      BlockCount(rest, bs);
      MulSucc(n, bs);
      MulSucc(n - 1, bs);
    }
  }

  /** Where block `i` starts: `i` whole blocks in, written without a product. */
  function Start(i: nat, bs: nat): (r: nat)
  {
    if i == 0 then 0 else Start(i - 1, bs) + bs
  }

  lemma {:induction false} StartIsProduct(i: nat, bs: nat)
    ensures Start(i, bs) == i * bs
  {
    if i > 0 {
      StartIsProduct(i - 1, bs);
      MulSucc(i - 1, bs);
    }
  }

  lemma {:induction false} BlockAtStart(basis: seq<byte>, bs: nat, i: nat)
    requires bs > 0 && i < |Blocks(basis, bs)|
    ensures Start(i, bs) < |basis|
    ensures Blocks(basis, bs)[i] == basis[Start(i, bs) .. Min(Start(i, bs) + bs, |basis|)]
    decreases i
  {
    var r := Blocks(basis, bs);
    if i > 0 {
      var rest := basis[bs..];
      var tail := Blocks(rest, bs);
      assert r == [basis[..bs]] + tail;
      assert r[i] == tail[i - 1];
      BlockAtStart(rest, bs, i - 1);
      var p := Start(i - 1, bs);
      assert Start(i, bs) == p + bs;
      var e := Min(p + bs, |rest|);
      assert Min(p + bs + bs, |basis|) == e + bs;
      SliceOfSuffix(basis, bs, p, e);
    } else if |basis| <= bs {
      assert r == [basis];
      assert basis[0 .. Min(0 + bs, |basis|)] == basis;
    } else {
      assert r[0] == basis[..bs];
    }
  }

  /** Block `i` starts at `i * bs` and runs for `bs` bytes or to the end of the basis. */
  lemma BlockAt(basis: seq<byte>, bs: nat, i: nat)
    requires bs > 0 && i < |Blocks(basis, bs)|
    ensures 0 <= i * bs < |basis|
    ensures Blocks(basis, bs)[i] == basis[i * bs .. Min(i * bs + bs, |basis|)]
  {
    BlockAtStart(basis, bs, i);
    StartIsProduct(i, bs);
  }

  lemma SliceOfSuffix<T>(s: seq<T>, d: nat, x: nat, y: nat)
    requires d <= |s| && x <= y <= |s| - d
    ensures s[d..][x..y] == s[d + x .. d + y]
  {
  }

  /**
    The weak index built by assigning `m[weaks[i]] := i` for i = 0, 1, ...:
    its keys are the checksums that occur, and each maps to the LAST block
    index carrying it.
   */
  function WeakIndex(weaks: seq<u32>): (m: map<u32, nat>)
    ensures forall k :: k in m <==> k in weaks
    ensures forall k :: k in m ==> m[k] < |weaks| && weaks[m[k]] == k
    ensures forall j :: 0 <= j < |weaks| ==> weaks[j] in m && j <= m[weaks[j]]
  {
    if |weaks| == 0 then map[]
    else
      var init := weaks[..|weaks| - 1];
      var m := WeakIndex(init);
      assert forall j :: 0 <= j < |init| ==> weaks[j] == init[j];
      assert weaks == init + [weaks[|weaks| - 1]];
      m[weaks[|weaks| - 1] := |weaks| - 1]
  }

  /** Weak checksum of every block. */
  function Weaks(blocks: seq<seq<byte>>): (r: seq<u32>)
    ensures |r| == |blocks|
    ensures forall i :: 0 <= i < |blocks| ==> r[i] == Checksum32(blocks[i])
  {
    seq(|blocks|, i requires 0 <= i < |blocks| => Checksum32(blocks[i]))
  }

  /** Strong hash of every block, truncated to `ss` bytes. */
  function Strongs(blocks: seq<seq<byte>>, ss: nat, hash: Hash): (r: seq<seq<byte>>)
    requires DigestCovers(hash, ss)
    ensures |r| == |blocks|
    ensures forall i :: 0 <= i < |blocks| ==> r[i] == hash(blocks[i])[..ss]
  {
    seq(|blocks|, i requires 0 <= i < |blocks| => hash(blocks[i])[..ss])
  }

  /** `writeSignatureHeader`: block size as 4 big-endian bytes, then the strong size. */
  function EncodeHeader(h: Header): (r: seq<byte>)
    ensures |r| == 5
    ensures DecodeHeader(r) == h
  {
    var r := PutUint32(h.blockSize) + [h.strongSize];
    assert r[..4] == PutUint32(h.blockSize);
    r
  }

  /**
    `readSignatureHeader` on a complete 5-byte header: the block size whose
    big-endian encoding is the first four bytes, and the fifth byte.
   */
  function DecodeHeader(b: seq<byte>): (r: Header)
    requires |b| == 5
    ensures PutUint32(r.blockSize) == b[..4] && r.strongSize == b[4]
  {
    Uint32RoundTrip(b[..4]);
    Header(Uint32(b[..4]), b[4])
  }

  /** Every 5-byte string is the encoding of the header it decodes to. */
  lemma HeaderBytesRoundTrip(b: seq<byte>)
    requires |b| == 5
    ensures EncodeHeader(DecodeHeader(b)) == b
  {
    Uint32RoundTrip(b[..4]);
    assert b == b[..4] + [b[4]];
  }

  /** The records written by `writeSignatureChecksum`: each weak checksum (4 bytes, big-endian) then its strong hash. */
  function EncodeRecords(weaks: seq<u32>, strongs: seq<seq<byte>>): seq<byte>
    requires |weaks| == |strongs|
  {
    if |weaks| == 0 then [] else PutUint32(weaks[0]) + strongs[0] + EncodeRecords(weaks[1..], strongs[1..])
  }

  lemma {:induction false} EncodeRecordsLength(weaks: seq<u32>, strongs: seq<seq<byte>>, ss: nat)
    requires |weaks| == |strongs|
    requires forall i :: 0 <= i < |strongs| ==> |strongs[i]| == ss
    ensures |EncodeRecords(weaks, strongs)| == |weaks| * (4 + ss)
  {
    if |weaks| > 0 {
      EncodeRecordsLength(weaks[1..], strongs[1..], ss);
      assert |weaks| * (4 + ss) == (|weaks| - 1) * (4 + ss) + (4 + ss);
    }
  }

  /** A stream of whole `(4 + ss)`-byte records. */
  predicate WholeRecords(s: seq<byte>, ss: nat)
    decreases |s|
  {
    |s| == 0 || (|s| >= 4 + ss && WholeRecords(s[4 + ss..], ss))
  }

  /** A serialised signature: a header followed by whole records of the size it announces. */
  predicate WellFormedSignature(s: seq<byte>)
  {
    |s| >= 5 && WholeRecords(s[5..], s[4])
  }

  /** `readSignatureChecksum` on whole records: the weak checksums and strong hashes in order. */
  function DecodeRecords(s: seq<byte>, ss: nat): (r: (seq<u32>, seq<seq<byte>>))
    requires WholeRecords(s, ss)
    ensures |r.0| == |r.1|
    ensures forall i :: 0 <= i < |r.1| ==> |r.1[i]| == ss
    decreases |s|
  {
    if |s| == 0 then ([], [])
    else
      var rest := DecodeRecords(s[4 + ss..], ss);
      ([Uint32(s[..4])] + rest.0, [s[4..4 + ss]] + rest.1)
  }

  /** Decoding what `EncodeRecords` wrote gives back both lists. */
  lemma {:induction false} RecordsRoundTrip(weaks: seq<u32>, strongs: seq<seq<byte>>, ss: nat)
    requires |weaks| == |strongs|
    requires forall i :: 0 <= i < |strongs| ==> |strongs[i]| == ss
    ensures WholeRecords(EncodeRecords(weaks, strongs), ss)
    ensures DecodeRecords(EncodeRecords(weaks, strongs), ss) == (weaks, strongs)
  {
    if |weaks| > 0 {
      var s := EncodeRecords(weaks, strongs);
      var tail := EncodeRecords(weaks[1..], strongs[1..]);
      RecordsRoundTrip(weaks[1..], strongs[1..], ss);
      assert s == PutUint32(weaks[0]) + strongs[0] + tail;
      assert s[..4] == PutUint32(weaks[0]);
      assert s[4..4 + ss] == strongs[0];
      assert s[4 + ss..] == tail;
      assert weaks == [weaks[0]] + weaks[1..];
      assert strongs == [strongs[0]] + strongs[1..];
    }
  }

  /**
    `WriteSignature`: rejects a zero block size or strong size before
    writing anything; otherwise writes the header and one record per
    block and returns the signature it built.
   */
  function WriteSignature(basis: seq<byte>, bs: u32, ss: byte, hash: Hash): (r: Result<Written>)
    requires DigestCovers(hash, ss)
    ensures bs == 0 ==> r == Err(BlockSizeZero)
    ensures bs > 0 && ss == 0 ==> r == Err(StrongSizeZero)
    ensures bs > 0 && ss > 0 ==> r.Ok?
    ensures r.Ok? ==>
              && Valid(r.value.sig)
              && r.value.sig.header == Header(bs, ss)
              && |r.value.sig.strong| == |Blocks(basis, bs)|
              && (forall i :: 0 <= i < |r.value.sig.strong| ==> |r.value.sig.strong[i]| == ss)
              && |r.value.out| == 5 + |r.value.sig.strong| * (4 + ss)
              && r.value.out[..5] == EncodeHeader(Header(bs, ss))
  {
    if bs == 0 then Err(BlockSizeZero)
    else if ss == 0 then Err(StrongSizeZero)
    else
      var blocks := Blocks(basis, bs);
      var weaks := Weaks(blocks);
      var strongs := Strongs(blocks, ss, hash);
      var header := Header(bs, ss);
      var out := EncodeHeader(header) + EncodeRecords(weaks, strongs);
      EncodeRecordsLength(weaks, strongs, ss);
      assert out[..5] == EncodeHeader(header);
      Ok(Written(Signature(header, WeakIndex(weaks), strongs), out))
  }

  /**
    `readSignatureChecksum`: records until the stream is exhausted.  Each
    record is one read into the 4-byte weak buffer and one into the
    `ss`-byte strong buffer, both allocated once and reused, so a short
    read keeps the previous record's bytes behind the ones it delivers.
    End of stream at either read ends the records without an error; a
    weak checksum whose strong hash finds the stream exhausted is dropped.
    A strong size of zero makes the strong read ask for no bytes, which
    succeeds even at the end of the stream, so then every weak checksum
    is kept.
   */
  function ReadRecords(s: seq<byte>, ss: nat, weakBuf: seq<byte>, strongBuf: seq<byte>): (r: (seq<u32>, seq<seq<byte>>))
    requires |weakBuf| == 4 && |strongBuf| == ss
    ensures |r.0| == |r.1|
    ensures forall i :: 0 <= i < |r.1| ==> |r.1[i]| == ss
    decreases |s|
  {
    if |s| == 0 then ([], [])
    else
      var (w, s1) := ReadUpTo(s, 4);
      var wb := Overwrite(w, weakBuf);
      if |s1| == 0 && ss > 0 then ([], [])
      else
        var (t, s2) := ReadUpTo(s1, ss);
        var sb := Overwrite(t, strongBuf);
        var rest := ReadRecords(s2, ss, wb, sb);
        ([Uint32(wb)] + rest.0, [sb] + rest.1)
  }

  /**
    On whole records every read fills its buffer, so the reader sees each
    record as written, whatever its buffers held before.
   */
  lemma {:induction false} ReadWholeRecords(s: seq<byte>, ss: nat, weakBuf: seq<byte>, strongBuf: seq<byte>)
    requires |weakBuf| == 4 && |strongBuf| == ss && WholeRecords(s, ss)
    ensures ReadRecords(s, ss, weakBuf, strongBuf) == DecodeRecords(s, ss)
    decreases |s|
  {
    if |s| > 0 {
      var (w, s1) := ReadUpTo(s, 4);
      assert w == s[..4] && s1 == s[4..];
      OverwriteFull(w, weakBuf);
      var (t, s2) := ReadUpTo(s1, ss);
      assert t == s[4..4 + ss] && s2 == s[4 + ss..];
      OverwriteFull(t, strongBuf);
      ReadWholeRecords(s2, ss, w, t);
    }
  }

  /**
    How many records a stream of `n` bytes holds for the reader: one per
    whole `(4 + ss)`-byte record, plus one for a trailing piece longer
    than a weak checksum.  With a zero strong size every read of up to
    four bytes is a record of its own.
   */
  function RecordsIn(n: nat, ss: nat): nat
  {
    if ss == 0 then (n + 3) / 4
    else n / (4 + ss) + (if n % (4 + ss) > 4 then 1 else 0)
  }

  lemma RecordsInShort(n: nat, ss: nat)
    requires n <= 4 && ss > 0
    ensures RecordsIn(n, ss) == 0
  {
    DivModUnique(n, 4 + ss, 0, n);
  }

  lemma RecordsInStep(n: nat, ss: nat)
    requires n > 4 && ss > 0
    ensures n >= 4 + ss ==> RecordsIn(n, ss) == RecordsIn(n - 4 - ss, ss) + 1
    ensures n < 4 + ss ==> RecordsIn(n, ss) == 1
  {
    var m := 4 + ss;
    if n >= m {
      var k := n - m;
      DivModUnique(n, m, k / m + 1, k % m);
    } else {
      DivModUnique(n, m, 0, n);
    }
  }

  lemma RecordsInNoStrong(n: nat)
    requires n > 0
    ensures RecordsIn(n, 0) == RecordsIn(n - Min(4, n), 0) + 1
  {
    var k := n - Min(4, n);
    var q, r := (k + 3) / 4, (k + 3) % 4;
    assert k + 3 == q * 4 + r;
    if n <= 4 {
      assert k == 0 && q == 0 && r == 3;
      DivModUnique(n + 3, 4, 1, n - 1);
    } else {
      DivModUnique(n + 3, 4, q + 1, r);
    }
  }

  /** The reader returns exactly `RecordsIn` records, whatever its buffers held. */
  lemma {:induction false} RecordCount(s: seq<byte>, ss: nat, weakBuf: seq<byte>, strongBuf: seq<byte>)
    requires |weakBuf| == 4 && |strongBuf| == ss
    ensures |ReadRecords(s, ss, weakBuf, strongBuf).0| == RecordsIn(|s|, ss)
    decreases |s|
  {
    if |s| == 0 {
    } else if ss == 0 {
      var (w, s1) := ReadUpTo(s, 4);
      assert ReadUpTo(s1, 0) == ([], s1);
      assert Overwrite([], strongBuf) == strongBuf;
      RecordsInNoStrong(|s|);
      RecordCount(s1, 0, Overwrite(w, weakBuf), strongBuf);
    } else if |s| <= 4 {
      RecordsInShort(|s|, ss);
      if |s| > 0 {
        assert ReadUpTo(s, 4).1 == [];
      }
    } else {
      var (w, s1) := ReadUpTo(s, 4);
      var (t, s2) := ReadUpTo(s1, ss);
      RecordsInStep(|s|, ss);
      RecordCount(s2, ss, Overwrite(w, weakBuf), Overwrite(t, strongBuf));
      if |s| < 4 + ss {
        assert |s2| == 0;
      } else {
        assert |s2| == |s| - 4 - ss;
      }
    }
  }

  /**
    A short last record keeps the previous record's bytes: with 2-byte
    strong hashes, a stream whose last record lacks its final byte reads
    that byte from the record before it.
   */
  lemma ShortRecordKeepsStale()
    ensures var r := ReadRecords([0, 0, 0, 1, 9, 8, 0, 0, 0, 2, 5], 2, Zeros(4), Zeros(2));
            r == ([Uint32([0, 0, 0, 1]), Uint32([0, 0, 0, 2])], [[9, 8], [5, 8]])
  {
    var s: seq<byte> := [0, 0, 0, 1, 9, 8, 0, 0, 0, 2, 5];
    var s2 := s[6..];
    assert s[..4] == [0, 0, 0, 1] && s[4..][..2] == [9, 8] && s[4..][2..] == s2;
    assert s2[..4] == [0, 0, 0, 2] && s2[4..] == [5] && [5][..1] == [5] && [5][1..] == [];
    assert ReadUpTo(s, 4) == ([0, 0, 0, 1], s[4..]);
    assert Overwrite([0, 0, 0, 1], Zeros(4)) == [0, 0, 0, 1];
    assert ReadUpTo(s[4..], 2) == ([9, 8], s2);
    assert Overwrite([9, 8], Zeros(2)) == [9, 8];
    assert ReadUpTo(s2, 4) == ([0, 0, 0, 2], [5]);
    assert Overwrite([0, 0, 0, 2], [0, 0, 0, 1]) == [0, 0, 0, 2];
    assert ReadUpTo([5], 2) == ([5], []);
    assert Overwrite([5], [9, 8]) == [5, 8];
    var none := ReadRecords([], 2, [0, 0, 0, 2], [5, 8]);
    assert none == ([], []);
    var last := ReadRecords(s2, 2, [0, 0, 0, 1], [9, 8]);
    assert last == ([Uint32([0, 0, 0, 2])] + none.0, [[5, 8]] + none.1);
    assert last.0 == [Uint32([0, 0, 0, 2])];
    assert last.1 == [[5, 8]];
    var r := ReadRecords(s, 2, Zeros(4), Zeros(2));
    assert r == ([Uint32([0, 0, 0, 1])] + last.0, [[9, 8]] + last.1);
    assert r.0 == [Uint32([0, 0, 0, 1]), Uint32([0, 0, 0, 2])];
    assert r.1 == [[9, 8], [5, 8]];
  }

  /**
    With a zero strong size the strong read asks for nothing and succeeds
    even once the stream is exhausted: a lone 4-byte weak checksum is a
    record with an empty strong hash.
   */
  lemma NoStrongKeepsLastWeak()
    ensures ReadRecords([0, 0, 0, 7], 0, Zeros(4), []) == ([Uint32([0, 0, 0, 7])], [[]])
    ensures RecordsIn(4, 0) == 1
  {
    var s: seq<byte> := [0, 0, 0, 7];
    assert s[..4] == s && s[4..] == [];
    assert ReadUpTo(s, 4) == (s, []);
    assert Overwrite(s, Zeros(4)) == s;
    assert ReadUpTo([], 0) == ([], []);
    assert Overwrite([], []) == [];
    var none := ReadRecords([], 0, s, []);
    assert none == ([], []);
    var r := ReadRecords(s, 0, Zeros(4), []);
    assert r == ([Uint32(s)] + none.0, [[]] + none.1);
    assert r.0 == [Uint32(s)] && r.1 == [[]];
  }

  /**
    `ReadSignature`: end of stream on an empty stream; otherwise one read
    into a zeroed 5-byte header buffer, decoded whether or not the read
    filled it, and the records that follow, indexed with the same
    last-write-wins rule as the writer.
   */
  function ReadSignature(s: seq<byte>): (r: Result<Signature>)
    ensures |s| == 0 <==> r == Err(EndOfStream)
    ensures r.Ok? ==> Valid(r.value)
    ensures r.Ok? ==> forall i :: 0 <= i < |r.value.strong| ==> |r.value.strong[i]| == r.value.header.strongSize
    ensures |s| >= 5 ==> r.Ok? && r.value.header == DecodeHeader(s[..5])
  {
    if |s| == 0 then Err(EndOfStream)
    else
      var (b, rest) := ReadUpTo(s, 5);
      assert |b| == 5 ==> Pad(b, 5) == b;
      var header := DecodeHeader(Pad(b, 5));
      var records := ReadRecords(rest, header.strongSize, Zeros(4), Zeros(header.strongSize));
      Ok(Signature(header, WeakIndex(records.0), records.1))
  }

  /** A well-formed signature stream reads as its header and whole records. */
  lemma ReadWellFormed(s: seq<byte>)
    requires WellFormedSignature(s)
    ensures var records := DecodeRecords(s[5..], s[4]);
            ReadSignature(s) == Ok(Signature(DecodeHeader(s[..5]), WeakIndex(records.0), records.1))
  {
    var header := DecodeHeader(s[..5]);
    assert ReadUpTo(s, 5) == (s[..5], s[5..]);
    assert Pad(s[..5], 5) == s[..5];
    ReadWholeRecords(s[5..], s[4], Zeros(4), Zeros(s[4]));
  }

  /** Reading back what `WriteSignature` wrote yields an equal header, weak index and strong list. */
  lemma SignatureRoundTrip(basis: seq<byte>, bs: u32, ss: byte, hash: Hash)
    requires DigestCovers(hash, ss)
    requires bs > 0 && ss > 0
    ensures var w := WriteSignature(basis, bs, ss, hash).value;
            WellFormedSignature(w.out) && ReadSignature(w.out) == Ok(w.sig)
  {
    var blocks := Blocks(basis, bs);
    var weaks := Weaks(blocks);
    var strongs := Strongs(blocks, ss, hash);
    var w := WriteSignature(basis, bs, ss, hash).value;
    var records := EncodeRecords(weaks, strongs);
    assert w.out == EncodeHeader(Header(bs, ss)) + records;
    assert w.out[5..] == records;
    RecordsRoundTrip(weaks, strongs, ss);
    ReadWellFormed(w.out);
  }

  /** The records of a written signature are the checksum and truncated hash of each block, in order. */
  lemma WrittenRecords(basis: seq<byte>, bs: u32, ss: byte, hash: Hash)
    requires DigestCovers(hash, ss)
    requires bs > 0 && ss > 0
    ensures var w := WriteSignature(basis, bs, ss, hash).value;
            var blocks := Blocks(basis, bs);
            && WholeRecords(w.out[5..], ss)
            && |DecodeRecords(w.out[5..], ss).0| == |blocks|
            && (forall i :: 0 <= i < |blocks| ==>
                  DecodeRecords(w.out[5..], ss).0[i] == Checksum32(blocks[i])
                  && DecodeRecords(w.out[5..], ss).1[i] == hash(blocks[i])[..ss])
  {
    var blocks := Blocks(basis, bs);
    var w := WriteSignature(basis, bs, ss, hash).value;
    assert w.out[5..] == EncodeRecords(Weaks(blocks), Strongs(blocks, ss, hash));
    RecordsRoundTrip(Weaks(blocks), Strongs(blocks, ss, hash), ss);
  }

  /** `Lookup`: the indexed block's strong hash, its offset `idx * BlockSize` (as a `uint64`) and `BlockSize`. */
  function Lookup(sig: Signature, weak: u32): (r: Option<Found>)
    requires Valid(sig)
    ensures r.None? <==> weak !in sig.weak
  {
    if weak !in sig.weak then None
    else
      var idx := sig.weak[weak];
      Some(Found(sig.strong[idx], Wrap64(idx * sig.header.blockSize), sig.header.blockSize))
  }

  /**
    Looking up a checksum in a freshly written signature: absent exactly
    when no block has that checksum; otherwise it names the LAST block
    with that checksum, at offset `idx * blockSize`, with that block's
    truncated strong hash and the full `blockSize`, even when that block
    is the short last one.
   */
  lemma LookupAfterWrite(basis: seq<byte>, bs: u32, ss: byte, hash: Hash, k: u32)
    requires DigestCovers(hash, ss)
    requires bs > 0 && ss > 0 && |basis| < TWO64
    ensures var sig := WriteSignature(basis, bs, ss, hash).value.sig;
            var blocks := Blocks(basis, bs);
            var r := Lookup(sig, k);
            && (r.None? <==> forall i :: 0 <= i < |blocks| ==> Checksum32(blocks[i]) != k)
            && (r.Some? ==>
                  var idx := sig.weak[k];
                  && idx < |blocks|
                  && Checksum32(blocks[idx]) == k
                  && (forall j :: idx < j < |blocks| ==> Checksum32(blocks[j]) != k)
                  && r.value.strong == hash(blocks[idx])[..ss]
                  && r.value.offset == idx * bs
                  && r.value.blockSize == bs)
  {
    var sig := WriteSignature(basis, bs, ss, hash).value.sig;
    var blocks := Blocks(basis, bs);
    var weaks := Weaks(blocks);
    assert sig.weak == WeakIndex(weaks);
    if k in sig.weak {
      var idx := sig.weak[k];
      BlockAt(basis, bs, idx);
      var off := idx * bs;
      assert 0 <= off < TWO64;
      assert Lookup(sig, k).value.offset == Wrap64(off) == off;
      forall j | idx < j < |blocks|
        ensures Checksum32(blocks[j]) != k
      {
        assert weaks[j] in sig.weak && j <= sig.weak[weaks[j]];
      }
    } else {
      forall i | 0 <= i < |blocks|
        ensures Checksum32(blocks[i]) != k
      {
        assert weaks[i] in sig.weak;
      }
    }
  }
}
