# A verified model of the kuba--/diff delta engine

kuba--/diff is an rsync-style binary diff in Go. It has three parts:

- **Signature.** `WriteSignature` cuts a *basis* file into blocks of `BlockSize`
  bytes and records two checksums for each block: a weak rolling checksum
  (after librsync's rollsum) and a strong hash (md5) truncated to
  `StrongSize` bytes.
- **Delta.** `WriteDelta` slides a window of one block over the *new* file.
  A window whose weak checksum and truncated strong hash match a basis block
  becomes a copy instruction (`FromOld`). Bytes that fall out of the window
  become literal instructions (`FromNew`). An accumulator merges adjacent
  instructions before they are written.
- **Patch.** `Patch` replays the delta against the basis.

This project models those three parts as pure Dafny functions over byte
sequences and proves what they guarantee. Go's fixed-width arithmetic is
written out where it matters: the wrap-around of `uint16` and `uint64`, and
the conversion to `int64`.

Modules, in dependency order:

| file | module | models |
|---|---|---|
| common.dfy | `Common` | errors, `Result`, `Option`, sequence algebra |
| binary.dfy | `Binary` | fixed-width integers, big-endian `PutUint32/64`, `Uint32/64` |
| streams.dfy | `Streams` | one `Read` on a file or byte buffer, buffer reuse |
| rollsum.dfy | `Rollsum` | `checksum32` and the rolling update of its two 16-bit sums |
| rollbuffer.dfy | `Rolling` | `rollBuffer`: `newRollBuffer`, `reset`, `writeByte`, `bytes`, `checksum32` |
| signature.dfy | `Signatures` | `WriteSignature`, `ReadSignature`, `Lookup`, the header and record formats |
| instructions.dfy | `Instructions` | delta instructions, `writeTo`, `ReadDeltaInstructionHeader`, `ReadDelta` |
| merge.dfy | `Merge` | the accumulator: `DeltaInstruction.append` and the flush done by `writeTo` |
| patch.dfy | `Patching` | `Patch` |
| encoder.dfy | `Encoder` | `WriteDelta`, byte by byte, and the invariant it keeps |
| correctness.dfy | `Reconstruction` | what patching a written delta gives back |

The main results:

- **Weak checksum.** The rolling buffer's checksum is always the one-shot
  `checksum32` of the bytes it holds (`Rolling.ChecksumIsOneShot`,
  `Rolling.AfterWrites`). The rolling update agrees with it modulo 2^16
  (`Rollsum.RollModular`).
- **Wire formats round-trip.** This holds for signatures
  (`Signatures.SignatureRoundTrip`) and for delta streams
  (`Instructions.DeltaRoundTrip`).
- **Lookup.** Looking up a weak checksum in a written signature finds the
  *last* block with that checksum (`Signatures.LookupAfterWrite`).
- **Accumulator.** The accumulator never changes what the instructions
  stand for (`Merge.AppendDenotes`). An append only ever flushes an
  instruction that it could not have merged with its successor
  (`Merge.AppendSeparates`, `Merge.AppendChains`).
- **Shape of the delta.** Whatever the basis and the hash, every instruction
  the writer emits is canonical, and no two neighbours could have been
  merged. A copy never follows a copy that ends where it starts, and a
  literal run never follows a literal run (`Encoder.DeltaShape`).
  `ReadDelta` therefore reads the written delta back as those instructions
  (`Encoder.WriteDelta`).
- **Patching as written.** Patching a delta onto its basis gives back the
  new file except for the bytes still in the window at end of input, which
  `WriteDelta` never writes (`Reconstruction.WriteDeltaReconstructs`). The
  writer completed with those bytes reconstructs the whole file
  (`Reconstruction.CompleteRoundTrip`).

Reads follow the readers the package is used with: the files opened by the
command-line programs and the `bytes.Buffer`s of the tests.

- A `Read` returns as many bytes as remain, up to the buffer's size.
- A `Read` into a non-empty buffer reports end of stream only when nothing
  remains. A `Read` into an empty buffer always succeeds and delivers
  nothing.
- A short read leaves the rest of the buffer as it was.

The signature reader allocates its weak and strong buffers once and reuses
them for every record. So a short last record carries bytes of the record
before it (`Signatures.ShortRecordKeepsStale`). With a strong size of 0, the
strong read asks for no bytes. Every weak read, even a short last one, then
yields a record (`Signatures.RecordCount`, `Signatures.NoStrongKeepsLastWeak`).

Where the behaviour of the code is narrower or stranger than a reading of its
documentation suggests, the model follows the code:

- The accumulator starts as the zero instruction, `FromOld` with size 0. A
  first literal therefore "changes kind" and flushes an empty accumulator,
  which writes nothing.
- Consecutive literals grow the accumulator by 1 per append, whatever the
  appended size.
- A lookup's offset is `idx * BlockSize` as a `uint64`. Its size is always
  the full `BlockSize`, even for the short last block. Patching then stops
  at the end of the basis without an error.
- A copy that runs past the end of its source ends the patch successfully,
  with what was copied.
- `WriteDelta` does not write the bytes left in the window at end of input
  (see Findings).

The strong hash is the parameter `hash: seq<byte> -> seq<byte>`. The
writer's correctness rests on one hypothesis about the basis and the new
file, `Encoder.Separates`. It says the truncated hash tells every basis
block apart from every stretch of the new file that fits in a block, and
those stretches are the only strings the writer hashes. Without it, a
window whose hash collides with a block's hash is copied from the basis,
although it differs from that block. The shape of the delta
(`Encoder.DeltaShape`) needs no such hypothesis.

## Model

| member | source | states |
|---|---|---|
| Binary.PutUint32 | signature.go:77 | `PutUint32` writes four bytes that `Uint32` decodes back to the same value |
| Binary.Uint32RoundTrip | signature.go:95 | every 4-byte string is the big-endian encoding of the number `Uint32` reads from it |
| Binary.PutUint64 | delta.go:167-168 | `PutUint64` writes eight bytes that `Uint64` decodes back to the same value |
| Binary.Uint64RoundTrip | delta.go:117-118 | every 8-byte string is the big-endian encoding of the number `Uint64` reads from it |
| Rollsum.Pack | rollbuffer.go:27 | the packed checksum's low 16 bits are `s1` and its high 16 bits are `s2` |
| Rollsum.Checksum32Unrolled | rollbuffer.go:7-28 | the Go loop, taking 16 bytes at a time while 16 remain and then one at a time, with `uint16` wrap-around and the offset terms added at the end, returns the closed-form checksum `Checksum32(p)` for every input |
| Rollsum.Accumulate | rollbuffer.go:11-23 | adding `k` more bytes to the wrapped running sums gives the wrapped byte sum and wrapped prefix-sum total of the longer prefix |
| Rollsum.TriClosedForm | rollbuffer.go:26 | 1 + 2 + … + n equals n(n+1)/2, the correction the one-shot checksum adds once |
| Rollsum.OffsetFormIsChecksum | rollbuffer.go:25-26 | adding 31 to every byte as it enters (as the rolling buffer does) gives the same checksum as adding `l*31` and `31*l(l+1)/2` at the end |
| Rollsum.RollExact | rollbuffer.go:61-63 | sliding a window by one byte changes the offset byte sum by `in - out` and the weighted sum by the new byte sum minus `size*(out + 31)` |
| Rollsum.RollModular | rollbuffer.go:58-63 | the `uint16` roll update (one byte out, one byte in) yields exactly the wrapped sums of the slid window |
| Rolling.NewRollBuffer | rollbuffer.go:41-47 | a new buffer has a ring of `size` bytes and, for a positive size, holds the empty history: nothing written, checksum of nothing |
| Rolling.Reset | rollbuffer.go:49-54 | after a reset the buffer is empty with checksum 0 and the same size, whatever it held before |
| Rolling.WriteByte | rollbuffer.go:57-74 | a write keeps the buffer well formed, counts one more byte, advances the position cyclically, and overwrites exactly when `count >= size` |
| Rolling.WriteByteSlides | rollbuffer.go:57-74 | a write slides the window: the byte is appended, the oldest byte is evicted once the ring is full, and that byte is the one returned as `out` |
| Rolling.WriteByteHistory | rollbuffer.go:57-74 | after writing `b` the buffer holds history `hist + [b]`; it overwrites iff at least `size` bytes were written before, returning the byte written `size` writes earlier |
| Rolling.WriteAllHolds | rollbuffer.go:57-74 | writing a sequence of bytes extends the history by exactly that sequence |
| Rolling.Bytes | rollbuffer.go:76-92 | `bytes()` returns `min(count, size)` bytes |
| Rolling.BytesIsWindow | rollbuffer.go:76-92 | `bytes()` returns the window, oldest byte first, including after the ring wraps |
| Rolling.Checksum | rollbuffer.go:94-96 | `checksum32()` puts `s1` in the low 16 bits and `s2` in the high 16 bits; `Rolling.ChecksumIsOneShot` states what that value is |
| Rolling.ChecksumIsOneShot | rollbuffer.go:94-96 | the buffer's `checksum32()` equals the one-shot `checksum32` of the bytes it holds |
| Rolling.AfterWrites | rollbuffer.go:49-96 | after a reset and the bytes `bs`, the position is `|bs| mod size`, and `bytes()` is the last `min(|bs|, size)` bytes with the one-shot checksum of those bytes |
| Signatures.Blocks | signature.go:104-116 | the basis is read in blocks of `BlockSize` bytes, none empty, all but the last full |
| Signatures.BlocksCover | signature.go:107-116 | the blocks, concatenated in order, are the basis |
| Signatures.BlockCount | signature.go:107-116 | there are `ceil(|basis| / BlockSize)` blocks |
| Signatures.BlockAt | signature.go:107-119 | block `i` is the basis from `i*BlockSize` to the next multiple or the end |
| Signatures.WeakIndex | signature.go:124 | the weak index has a key for each weak checksum present; each key maps to the last block with that checksum |
| Signatures.EncodeHeader | signature.go:74-86 | the header is five bytes, big-endian block size then strong size, decoding back to the same header |
| Signatures.DecodeHeader | signature.go:88-99 | the decoded block size is the number whose big-endian encoding is the first four bytes, and the strong size is the fifth byte |
| Signatures.HeaderBytesRoundTrip | signature.go:88-99 | every 5-byte header is the encoding of what it decodes to |
| Signatures.EncodeRecordsLength | signature.go:118-136 | the records take `4 + StrongSize` bytes per block |
| Signatures.WriteSignature | signature.go:26-43 | block size 0 is rejected first and then strong size 0; otherwise the output is the header plus one record per block; every index the returned signature holds names one of its blocks, and there is one strong hash of `StrongSize` bytes per block |
| Signatures.WrittenRecords | signature.go:118-136 | the records written are, in block order, each block's weak checksum and truncated strong hash |
| Signatures.RecordsRoundTrip | signature.go:142-169 | decoding whole records gives back the weak checksums and strong hashes that were encoded |
| Signatures.ReadRecords | signature.go:142-169 | the reader returns as many weak checksums as strong hashes, each hash `StrongSize` bytes long, for any stream |
| Signatures.ReadWholeRecords | signature.go:142-169 | on whole records, the reader yields the decoded records whatever its buffers held |
| Signatures.RecordCount | signature.go:147-166 | the number of records read is one per whole record, plus one if the trailing piece is longer than 4 bytes; with strong size 0 it is one per weak read, `ceil(len/4)` |
| Signatures.ShortRecordKeepsStale | signature.go:145-165 | with strong size 2, the 11-byte stream `0 0 0 1 9 8 0 0 0 2 5` reads as two records, the second with strong hash `5 8`: its missing byte is the `8` left in the buffer by the first record |
| Signatures.NoStrongKeepsLastWeak | signature.go:145-165 | with strong size 0, the 4-byte stream `0 0 0 7` reads as one record with an empty strong hash |
| Signatures.ReadSignature | signature.go:46-58 | an empty stream is end of stream; any other stream yields a signature whose index names existing blocks, whose strong hashes have the announced size, and whose header is the first five bytes when present |
| Signatures.ReadWellFormed | signature.go:46-58 | a well-formed stream reads as its header, the weak index of its records and its strong hashes |
| Signatures.SignatureRoundTrip | signature.go:26-58 | reading back what `WriteSignature` wrote gives the signature it returned |
| Signatures.LookupAfterWrite | signature.go:61-72 | in a written signature, `Lookup` fails iff no block has that weak checksum; otherwise it finds the last such block, with that block's strong hash, offset `idx*BlockSize` and size `BlockSize` |
| Instructions.EncodeHeader | delta.go:165-168 | an instruction header is 17 bytes (kind, offset, size) and decodes back to itself |
| Instructions.DecodeHeader | delta.go:110-120 | the decoded kind is the first byte, and offset and size are the numbers whose big-endian encodings are the next two 8-byte groups |
| Instructions.HeaderBytesRoundTrip | delta.go:110-120 | every 17-byte string is the encoding of the header it decodes to |
| Instructions.WriteTo | delta.go:160-179 | an empty instruction writes nothing; any other writes its header, then its data only if it is `FromNew` |
| Instructions.ReadHeader | delta.go:110-120 | end of stream iff the stream is empty; otherwise at least one byte is consumed, and on a stream of 17 bytes or more the header is the decoding of its first 17 |
| Instructions.ReadDelta | delta.go:87-108 | the only error `ReadDelta` reports is end of stream |
| Instructions.ReadDeltaShape | delta.go:98-103 | every instruction read carries `size` data bytes if it is `FromNew` and none otherwise |
| Instructions.DeltaRoundTrip | delta.go:87-108 | reading a serialised sequence of canonical instructions gives the sequence back |
| Merge.Flush | delta.go:160-163 | flushing the accumulator writes the same bytes as `writeTo`, and nothing when it is empty |
| Merge.ZeroIsEmpty | delta.go:34 | the initial accumulator is well formed, stands for no bytes and flushes nothing |
| Merge.Append | delta.go:122-158 | an empty instruction changes nothing; a change of kind flushes the accumulator (writing nothing when it is empty) and replaces it; an append flushes at most the old, non-empty accumulator |
| Merge.AppendDenotes | delta.go:122-158 | what is flushed, followed by the new accumulator, stands for the old accumulator followed by the appended instruction |
| Merge.AppendSeparates | delta.go:127-155 | a flushed instruction could not have been merged with its successor, and an append that flushes nothing keeps that true |
| Merge.AppendChains | delta.go:122-158 | an append keeps every flushed instruction canonical and unmergeable with its neighbours, and the accumulator non-empty once anything was flushed |
| Merge.FlushChains | delta.go:79 | the final flush closes the chain: the whole output is canonical and no two neighbours could have been merged |
| Patching.Clamp | patch.go:21 | a copy yields at most `size` bytes, and exactly the basis slice when that slice lies inside the basis |
| Patching.Patch | patch.go:7-38 | the only error `Patch` returns is the seek to an offset that is negative as `int64` |
| Patching.PatchStep | patch.go:17-34 | one instruction inside the basis outputs its bytes and patching goes on; a copy past the end of the basis outputs what remains and ends the patch |
| Patching.PatchSerialized | patch.go:7-38 | patching serialised canonical instructions, all but the last inside the basis, outputs their bytes in order |
| Encoder.ProbeShaped | delta.go:58-77 | a lookup keeps the written instructions canonical and chained; the accumulator grows by at most one block |
| Encoder.StepShaped | delta.go:36-56 | consuming one byte keeps the written instructions canonical and chained, and the accumulator within the bytes seen |
| Encoder.RunShaped | delta.go:35-82 | consuming any input keeps the written instructions canonical and chained |
| Encoder.DeltaShape | delta.go:29-85 | for any usable signature, any hash and any input, every instruction `WriteDelta` emits is canonical, no two neighbours could have been merged, and the serialised list reads back unchanged |
| Encoder.WriteDelta | delta.go:29-85 | `ReadDelta` reads the bytes `WriteDelta` writes back as the instructions it emitted |
| Encoder.MatchedBlock | delta.go:58-77 | a window whose truncated strong hash matches the looked-up block is that block, so the copy emitted stands for the window |
| Encoder.EmitProduces | delta.go:49-54 | appending an instruction adds exactly its bytes to what has been produced |
| Encoder.ProbeKeeps | delta.go:58-77 | a lookup keeps "bytes seen = bytes produced + window"; it either changes nothing or empties the window |
| Encoder.StepKeeps | delta.go:36-56 | consuming one byte keeps "bytes seen = bytes produced + window" |
| Encoder.RunKeeps | delta.go:35-82 | consuming any input keeps "bytes seen = bytes produced + window" |
| Reconstruction.FinalKeeps | delta.go:58-81 | at end of input, the input is what was produced followed by the window, and every instruction written is canonical and inside the basis |
| Reconstruction.FlushedDelta | delta.go:79 | flushing the accumulator after the written instructions gives a delta that patches to exactly what was produced |
| Reconstruction.WriteDeltaReconstructs | delta.go:29-85 | patching the delta onto its basis gives the new file minus its last `|Residual|` bytes, and those bytes are at most one block |
| Reconstruction.ExactWithoutResidual | delta.go:29-85 | when nothing is left in the window, patching gives back the new file exactly |
| Reconstruction.DropsResidual | delta.go:78-81 | against an empty basis with 4-byte blocks, the new file `[7]` yields an empty delta, and patching gives nothing back |
| Reconstruction.CompleteRoundTrip | delta.go:78-81 | a writer that also emits the window's bytes as literals at end of input gives a delta that patches to the whole new file |

## Left out

- I/O errors and partial writes: every reader and writer here is an in-memory byte sequence. The error branches that propagate a failed `Write` or `Read` other than end of stream are not modelled.
- The strong hash: md5 (`NewHash` in diff.go) is a parameter `hash`, with no property assumed except where a lemma states one.
- Signatures.WriteSignature: requires digests at least `StrongSize` bytes long. A larger strong size makes the Go slice expression panic, and panics are not modelled.
- Encoder.Usable: the writer is modelled only for signatures with a positive block size, digests covering the strong size and an index naming existing blocks. A signature read with block size 0 makes `writeByte` index an empty ring and panic.
- Merge.AppendDenotes: requires appended literals of size 1 and sums below 2^64. The writer only appends such literals. Wrap-around of `uint64` is modelled in `Append` itself but not carried through its meaning.
- Reconstruction.WriteDeltaReconstructs: assumes `Encoder.Separates` and `|basis| + |new| + BlockSize < 2^63`. `Separates` says no stretch of the new file of at most one block has the truncated hash of a different basis block. Without it, copies can stand for the wrong bytes. The second keeps offsets and sizes non-negative as `int64`.
- Encoder.WriteDelta: the read-back is stated for inputs with `|new| + BlockSize < 2^64`. A longer literal run would wrap its `uint64` size.
- Readers other than files and byte buffers: `bytes.Reader` reports end of stream on an empty read at the end of the stream, so with strong size 0 it would drop the last weak checksum. Readers that return short reads before the end, such as pipes, are not modelled either.
- The `bufio.Reader` around the new file in `WriteDelta`: it only buffers the same bytes, so the writer reads the new file as one byte sequence.
- The error `WriteDelta` ignores from its final `writeTo`: there are no write errors in the model.
- Go's `int` overflow in `l*(l+1)` of `checksum32`: it cannot change the result modulo 2^16, because the product is even and 2^16 divides 2^63. Lengths are unbounded here.
- The command-line programs under cmd/ and the package variables of diff.go (`ByteOrder` is fixed to big-endian, `NewHash` is the parameter above).
- The exact instruction lists the repository's tests expect for their sample texts: unfolding a whole file through the writer symbolically costs more than the verifier can afford. No theorem here names the instructions emitted for a given text. `Encoder.DeltaShape` states only their shape. The reconstruction theorems apply to such a text only if md5, truncated, satisfies `Encoder.Separates` for it, and that is not established here.

## Findings

| source | as written | input that shows it | evidently intended | confidence | as-written member | corrected member |
|---|---|---|---|---|---|---|
| delta.go:78-81 | at end of input `WriteDelta` tries one last lookup and flushes the accumulator, but bytes still in the window that match no block are never written | basis empty, new file `[7]`, block size 4, strong size 1: the delta is empty and patching yields nothing | patching the delta reproduces the new file: the window's bytes are emitted as literals before the final flush | not executed | Reconstruction.DropsResidual | Reconstruction.CompleteRoundTrip |
