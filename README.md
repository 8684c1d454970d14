# APNG chunk framing codec, modelled in Dafny

This project models the chunk framing codec of APNG4Android's `Chunk` class.
An APNG stream is the PNG container extended with the animation chunks acTL,
fcTL and fdAT, and it is a sequence of chunks laid out as

    [4 bytes length] [4 bytes type code] [length bytes payload] [4 bytes CRC]

with both integers big-endian (section 5.3 "Chunk layout" and section 7.1 of
the PNG specification, ISO/IEC 15948). The model has four modules:

- `ByteCodec` (`byte_codec.dfy`) holds Java's `byte` and `int` as signed
  bounded integers with explicit two's-complement reinterpretation. It also
  holds `byteArrayToInt` and `readIntByByte` and the two round trips between them.
- `ChunkType` (`chunk_type.dfy`) holds the six known type codes and the
  closed dispatch `newInstance`. Each variant is kept as a tag.
- `ChunkFormat` (`chunk_format.dfy`) is the value-level definition of one
  `read` (`ParseChunk`, over an immutable byte sequence and a position) and of
  the bytes `copy` writes (`Encoded`). It states the laws relating the two:
  exact consumption, field placement, the size law and both round trips.
- `ChunkIO` (`chunk_io.dfy`) is the imperative code. `Chunk` is a class with
  the fields `length`, `typeCode`, `data` and `crc` and a fixed variant.
  `Chunk.Read` advances an `InputSource` (the `InputStream`) and assigns the
  fields one by one. `Chunk.Copy` and its four helpers write into an
  `array<Int8>` in place. Each method is proved against `ChunkFormat`.

Design choices where the code leaves a case open:

- **Short reads.** The Java code never checks how many bytes a read or a
  skip delivered (`Chunk.java:35`, `:38`, `:83`). Here a read that finds
  fewer bytes than it asks for fails with `Truncated` and consumes what was
  left. A read at a chunk boundary that finds no byte at all returns
  `EndOfInput`; the Java code would instead reuse stale scratch bytes there.
- **Negative length.** A length field with the top bit set is a negative
  Java `int`. `new byte[length]` throws for it, which is modelled as the
  failure `NegativeLength`. On the skip path a skip count of zero or less
  skips nothing, as `InputStream.skip` specifies.
- **Interrupt flag.** `Thread.interrupted()` is a boolean argument. When it
  is set, `read` returns `Interrupted` (the Java `null`) and consumes nothing.
- **Skipped payloads.** On the skip path `data` stays null (`None`) and
  `crc` stays 0. `copy` then writes only the 12 framing bytes, while
  `getRawDataLength` still reports `length + 12`, so the size law holds only
  for chunks that carry their payload.

## Model

| member | source | states |
|---|---|---|
| `ByteCodec.ByteArrayToInt` | apng/src/main/java/com/yupaopao/animation/apng/chunk/Chunk.java:93-98 | the int is negative exactly when the first byte is; its low byte is the last byte |
| `ByteCodec.ReadIntByByte` | apng/src/main/java/com/yupaopao/animation/apng/chunk/Chunk.java:146-156 | byte 0 carries the sign of the int; every index other than 0, 1 and 2 yields the least significant byte |
| `ByteCodec.ByteArrayToIntIsBigEndian` | apng/src/main/java/com/yupaopao/animation/apng/chunk/Chunk.java:93-98 | the int's 32-bit pattern is the big-endian value of the four bytes, by an independent recursive definition of big-endian order |
| `ByteCodec.IntToBytesIsBigEndian` | apng/src/main/java/com/yupaopao/animation/apng/chunk/Chunk.java:146-156 | bytes 0..3 from `readIntByByte` have the int's 32-bit pattern as their big-endian value |
| `ByteCodec.IntToBytesRoundTrip` | apng/src/main/java/com/yupaopao/animation/apng/chunk/Chunk.java:93-98 | `byteArrayToInt` of the four `readIntByByte` bytes of any int is that int |
| `ByteCodec.BytesToIntRoundTrip` | apng/src/main/java/com/yupaopao/animation/apng/chunk/Chunk.java:146-156 | the four `readIntByByte` bytes of `byteArrayToInt(b)` are `b`, for any four bytes |
| `ChunkType.NewInstance` | apng/src/main/java/com/yupaopao/animation/apng/chunk/Chunk.java:45-71 | the generic variant exactly for codes outside the six known IDs; otherwise the variant whose ID is the code |
| `ChunkType.NewInstanceOfId` | apng/src/main/java/com/yupaopao/animation/apng/chunk/Chunk.java:47-65 | each known variant is selected by its own ID, so dispatch and ID table are inverse |
| `ChunkType.IdsSpellNames` | apng/src/main/java/com/yupaopao/animation/apng/chunk/Chunk.java:48-63 | the six IDs are the ASCII names IHDR, IDAT, IEND, acTL, fcTL, fdAT packed big-endian |
| `ChunkType.AsciiCode` | apng/src/main/java/com/yupaopao/animation/apng/chunk/Chunk.java:48-63 | the packed code's most significant byte is the name's first letter |
| `ChunkFormat.ParseChunk` | apng/src/main/java/com/yupaopao/animation/apng/chunk/Chunk.java:25-43 | the cursor only moves forward and stays in the stream; the result is `Interrupted` exactly when the flag is set, and otherwise `EndOfInput` exactly when the cursor is at the end; in both cases nothing is consumed |
| `ChunkFormat.ReadKeepsHeader` | apng/src/main/java/com/yupaopao/animation/apng/chunk/Chunk.java:29-33 | a read chunk's `length` and `type` are the first two big-endian ints, and its variant is the one `newInstance` picks for that type |
| `ChunkFormat.ReadSkipPath` | apng/src/main/java/com/yupaopao/animation/apng/chunk/Chunk.java:34-35 | whenever a read with `skipData` yields an IDAT or fdAT chunk, its `data` is unset and its `crc` 0, and a non-negative length has advanced the stream by exactly `8 + length + 4` |
| `ChunkFormat.SkipPathReads` | apng/src/main/java/com/yupaopao/animation/apng/chunk/Chunk.java:29-35 | with `skipData`, a complete IDAT or fdAT chunk of any non-negative length, up to 2^31 - 1, is read as a chunk with `data` unset and `crc` 0, and the stream advances by exactly `8 + length + 4`, wherever the chunk stands |
| `ChunkFormat.ReadFullPath` | apng/src/main/java/com/yupaopao/animation/apng/chunk/Chunk.java:36-41 | otherwise the length is non-negative, `data` is the `length` bytes after the header, `crc` the next four bytes big-endian, and the stream advances by `8 + length + 4` |
| `ChunkFormat.ReadRejectsTruncation` | apng/src/main/java/com/yupaopao/animation/apng/chunk/Chunk.java:29-39 | a header cut short, or a declared length running past the end, yields `Truncated`, never a short chunk |
| `ChunkFormat.ReadThenEncode` | apng/src/main/java/com/yupaopao/animation/apng/chunk/Chunk.java:108-118 | for any chunk read with its payload, the serialised bytes are exactly the bytes the read consumed, for unknown type codes too |
| `ChunkFormat.EncodeThenRead` | apng/src/main/java/com/yupaopao/animation/apng/chunk/Chunk.java:25-43 | reading back the serialised form of any well-formed chunk with a payload, anywhere in a stream, yields that chunk and consumes exactly its bytes |
| `ChunkFormat.EncodedLayout` | apng/src/main/java/com/yupaopao/animation/apng/chunk/Chunk.java:108-118 | length at bytes 0..4, type at 4..8, then the payload and the CRC after it, or the CRC at 8..12 when there is no payload |
| `ChunkFormat.SizeLaw` | apng/src/main/java/com/yupaopao/animation/apng/chunk/Chunk.java:100-102 | a chunk carrying its payload serialises to `length + 12` bytes; a skipped one to 12 |
| `ChunkFormat.RawDataLengthAsWritten` | apng/src/main/java/com/yupaopao/animation/apng/chunk/Chunk.java:100-102 | the 32-bit sum equals `length + 12` whenever that does not overflow |
| `ChunkFormat.RawDataLengthAsWrittenOverflows` | apng/src/main/java/com/yupaopao/animation/apng/chunk/Chunk.java:101 | for length 2^31 - 1 the 32-bit sum is negative |
| `ChunkFormat.SkipCountAsWritten` | apng/src/main/java/com/yupaopao/animation/apng/chunk/Chunk.java:35 | the 32-bit `length + 4` equals the exact sum whenever that does not overflow |
| `ChunkFormat.SkipCountAsWrittenOverflows` | apng/src/main/java/com/yupaopao/animation/apng/chunk/Chunk.java:35 | for the four largest lengths the 32-bit `length + 4` is negative |
| `ChunkIO.InputSource.ReadFully` | apng/src/main/java/com/yupaopao/animation/apng/chunk/Chunk.java:38 | returns the next `n` bytes and advances by `n`, or fails and consumes the rest |
| `ChunkIO.InputSource.Skip` | apng/src/main/java/com/yupaopao/animation/apng/chunk/Chunk.java:35 | a non-positive count skips nothing; otherwise advances by the count or fails at the end |
| `ChunkIO.Chunk.ReadIntFromStream` | apng/src/main/java/com/yupaopao/animation/apng/chunk/Chunk.java:82-85 | the next four bytes as a big-endian int, advancing the stream by four |
| `ChunkIO.Chunk.Read` | apng/src/main/java/com/yupaopao/animation/apng/chunk/Chunk.java:25-43 | the new stream position, the reason when there is no chunk, and the fields of the fresh chunk are exactly those of `ParseChunk` |
| `ChunkIO.Chunk.GetRawDataLength` | apng/src/main/java/com/yupaopao/animation/apng/chunk/Chunk.java:100-102 | for a chunk carrying its payload, the number of bytes `copy` writes |
| `ChunkIO.Chunk.Copy` | apng/src/main/java/com/yupaopao/animation/apng/chunk/Chunk.java:108-118 | `dst` becomes its old contents with the serialised chunk spliced in at `offset`, each field at its fixed offset; no other element changes |
| `ChunkIO.Chunk.CopyLength` | apng/src/main/java/com/yupaopao/animation/apng/chunk/Chunk.java:120-125 | the length's four big-endian bytes are spliced in at `offset`; nothing else changes |
| `ChunkIO.Chunk.CopyTypeCode` | apng/src/main/java/com/yupaopao/animation/apng/chunk/Chunk.java:127-132 | the type code's four big-endian bytes are spliced in at `offset`; nothing else changes |
| `ChunkIO.Chunk.CopyData` | apng/src/main/java/com/yupaopao/animation/apng/chunk/Chunk.java:134-136 | the `length` payload bytes are spliced in at `offset`; nothing else changes |
| `ChunkIO.Chunk.CopyCrc` | apng/src/main/java/com/yupaopao/animation/apng/chunk/Chunk.java:138-143 | the CRC's four big-endian bytes are spliced in at `offset`; nothing else changes |
| `ChunkIO.CopyLayout` | apng/src/main/java/com/yupaopao/animation/apng/chunk/Chunk.java:108-118 | splicing the serialised chunk puts each field at its fixed offset and keeps every other element |

## Left out

- `ChunkIO.Chunk.Copy`: requires the destination to be large enough. The Java code instead throws `ArrayIndexOutOfBoundsException` after writing a prefix. The offset is a `nat`, so the exception for a negative offset is not modelled either.
- `ChunkIO.InputSource.ReadFully`: a short read happens only at the end of the bytes. A general `InputStream.read` may return fewer bytes at any time, and the Java code ignores the count (see the design choices above).
- `ChunkIO.InputSource.Skip`: a skip past the end fails. `InputStream.skip` would return a smaller count, which the Java code ignores.
- `ChunkIO.Chunk.GetRawDataLength`: returns the exact `length + 12` (the corrected form of the finding below). The 32-bit form is `ChunkFormat.RawDataLengthAsWritten`.
- `ChunkFormat.ParseChunk`: the skip count is the exact `length + 4` (the corrected form of the `Chunk.java:35` finding below). The 32-bit form is `ChunkFormat.SkipCountAsWritten`.
- `ChunkIO.Chunk.Read`: the skip count is the exact `length + 4` (the corrected form of the `Chunk.java:35` finding below). The 32-bit form is `ChunkFormat.SkipCountAsWritten`.
- `readTypeCodeFromInputStream` (`Chunk.java:87-90`) is not modelled. It decodes bytes through the platform charset and serves diagnostics only.
- The thread-local scratch buffer (`Chunk.java:20`, `:73-80`) is not modelled. The four bytes are read directly from the stream.
- `Thread.interrupted()` is a boolean argument. The clearing of the thread's interrupt status is not modelled.
- `IOException` from the stream is not modelled. The byte source is an immutable sequence and cannot fail.
- `parse()` is not modelled. It is empty in the base class, and the subclasses that override it (IHDR, acTL, fcTL, fdAT field decoding) are not part of this model, so their `MalformedVariantError` is absent too.
- Each variant is a tag. `instanceof IDATChunk` is modelled as "the variant is IDAT", which assumes no other class extends it.
- The CRC is stored and re-emitted, never computed or checked, as in the code.
- `peekData` (`Chunk.java:104-106`) is not modelled. It is a bare array access.
- `data` is an immutable `seq`, not a `byte[]`, so aliasing between `data` and the destination of `copy` is not modelled.
- The six ID constants live in subclass files that are not part of this model. They are taken to be the ASCII names packed big-endian, as `ChunkType.IdsSpellNames` states.
- The format's rule that a type code consists of ASCII letters is not enforced, because the code does not check it.

## Findings

| source | as written | input that shows it | evidently intended | confidence | as-written member | corrected member |
|---|---|---|---|---|---|---|
| apng/src/main/java/com/yupaopao/animation/apng/chunk/Chunk.java:35 | `skip(length + 4)` adds in 32-bit `int` | an IDAT chunk of length 2^31 - 1 (the documented maximum) read with `skipData`: the count is negative and nothing is skipped, so the stream is left at the payload | skip `length + 4` bytes computed as a `long` | low: not executed; the arithmetic is exact, but such chunks are about 2 GiB | `ChunkFormat.SkipCountAsWrittenOverflows` | `ChunkFormat.SkipPathReads` |
| apng/src/main/java/com/yupaopao/animation/apng/chunk/Chunk.java:101 | `getRawDataLength` returns `length + 12` as a 32-bit `int` | a chunk of length 2^31 - 1: the reported size is negative | the exact size `length + 12` | low: not executed; the arithmetic is exact, but such chunks are about 2 GiB | `ChunkFormat.RawDataLengthAsWrittenOverflows` | `ChunkFormat.SizeLaw` |
