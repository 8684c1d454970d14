/** The chunk wire format as values: what one call of `read` takes from a byte
    stream, what `copy` writes back, and the laws that relate the two.

    On the wire a chunk is
      [4 bytes length] [4 bytes type code] [length bytes payload] [4 bytes CRC]
    with both integers big-endian. The CRC is carried, never computed. */
module ChunkFormat {
  import opened ByteCodec
  import opened ChunkType

  datatype Option<T> = None | Some(value: T)

  /** The fields of a `Chunk` object: its variant, `length`, `type`, `data`
      (`None` where the Java field is null) and `crc`. */
  datatype ChunkValue = ChunkValue(kind: Kind, length: Int32, typeCode: Int32,
                                   data: Option<seq<Int8>>, crc: Int32)

  /** A payload, when present, holds exactly `length` bytes. */
  predicate WellFormed(c: ChunkValue)
  {
    c.data.Some? ==> |c.data.value| == c.length
  }

  /** The test in `copy`: `data != null && data.length > 0`. */
  predicate HasPayload(c: ChunkValue)
  {
    c.data.Some? && |c.data.value| > 0
  }

  /** How many bytes `copy` writes: 12 bytes of framing around the payload,
      when there is one. */
  function EncodedSize(c: ChunkValue): nat
  {
    12 + if HasPayload(c) then |c.data.value| else 0
  }

  /** The bytes `copy` writes: length, type, the payload when there is one,
      and the CRC. */
  function Encoded(c: ChunkValue): (r: seq<Int8>)
    ensures |r| == EncodedSize(c)
  {
    IntToBytes(c.length) + IntToBytes(c.typeCode)
    + (if HasPayload(c) then c.data.value else []) + IntToBytes(c.crc)
  }

  /** Where each field stands in the serialised chunk: the length at bytes
      0..4, the type at 4..8, then either the payload at 8..8+length and the
      CRC after it, or, without a payload, the CRC at 8..12. */
  lemma EncodedLayout(c: ChunkValue)
    requires WellFormed(c)
    ensures |Encoded(c)| >= 12
    ensures Encoded(c)[..4] == IntToBytes(c.length)
    ensures Encoded(c)[4..8] == IntToBytes(c.typeCode)
    ensures HasPayload(c) ==>
              && Encoded(c)[8..8 + c.length] == c.data.value
              && Encoded(c)[8 + c.length..12 + c.length] == IntToBytes(c.crc)
    ensures !HasPayload(c) ==> Encoded(c)[8..12] == IntToBytes(c.crc)
  {
  }

  /** `getRawDataLength`, computed without wrap-around: 4 bytes of length,
      4 of type, the payload and 4 of CRC. */
  function RawDataLength(c: ChunkValue): int
  {
    c.length + 12
  }

  /** `getRawDataLength` as written: a 32-bit `int` sum. */
  function RawDataLengthAsWritten(c: ChunkValue): (n: Int32)
    ensures c.length <= MAX_INT32 - 12 ==> n == RawDataLength(c)
  {
    Wrap32(c.length + 12)
  }

  /** Size law: a chunk that carries its payload serialises to exactly
      `RawDataLength` bytes; a chunk whose payload was skipped serialises to
      its 12 bytes of framing only. */
  lemma SizeLaw(c: ChunkValue)
    requires WellFormed(c)
    ensures c.data.Some? ==> |Encoded(c)| == RawDataLength(c)
    ensures c.data.None? ==> |Encoded(c)| == 12
  {
  }

  /** The `int` sum in `getRawDataLength` overflows for the largest lengths
      the format allows (at most 2^31 - 1): the reported size is negative. */
  lemma RawDataLengthAsWrittenOverflows()
    ensures var c := ChunkValue(Generic, MAX_INT32, 0, None, 0);
            RawDataLengthAsWritten(c) < 0 < RawDataLength(c)
  {
  }

  /** The argument of `skip` on the skip path, as a `long`: the payload and
      the CRC. */
  function SkipCount(length: Int32): int
  {
    length + 4
  }

  /** The argument of `skip` as written: an `int` sum, widened afterwards. */
  function SkipCountAsWritten(length: Int32): (n: Int32)
    ensures length <= MAX_INT32 - 4 ==> n == SkipCount(length)
  {
    Wrap32(length + 4)
  }

  /** For the four largest lengths the `int` sum is negative, and a negative
      argument makes `InputStream.skip` skip nothing, so the stream would be
      left inside the payload. */
  lemma SkipCountAsWrittenOverflows(length: Int32)
    requires MAX_INT32 - 4 < length
    ensures SkipCountAsWritten(length) < 0 < SkipCount(length)
  {
  }

  /** `readIntFromInputStream` on a stream with at least four bytes left. */
  function IntAt(src: seq<Int8>, pos: nat): Int32
    requires pos + 4 <= |src|
  {
    ByteArrayToInt(src[pos..pos + 4])
  }

  /** Why a read fails. The Java code never checks the byte count of a read;
      here a read that finds fewer bytes than it asks for is `Truncated`, and
      `NegativeLength` stands for the exception of `new byte[length]`. */
  datatype Failure = Truncated | NegativeLength

  /** Why a read yields no chunk: `Interrupted` is the `null` that `read`
      returns; `EndOfInput` is a read that finds the stream exhausted at a
      chunk boundary. */
  datatype Stop = Interrupted | EndOfInput | Failed(reason: Failure)

  /** A chunk, or the reason there is none. */
  datatype ReadResult = Parsed(chunk: ChunkValue) | NoChunk(why: Stop)

  /** One call of `read`: its result and the stream position after it. */
  datatype Step = Step(result: ReadResult, next: nat)

  /** `read` on the bytes `src` from position `pos`. A short read consumes
      every byte that is left, as `InputStream.read` does. */
  function ParseChunk(src: seq<Int8>, pos: nat, skipData: bool, interrupted: bool): (r: Step)
    requires pos <= |src|
    ensures pos <= r.next <= |src|
    ensures r.result == NoChunk(Interrupted) <==> interrupted
    ensures r.result == NoChunk(EndOfInput) <==> !interrupted && pos == |src|
    ensures r.result == NoChunk(Interrupted) || r.result == NoChunk(EndOfInput) ==> r.next == pos
  {
    if interrupted then Step(NoChunk(Interrupted), pos)
    else if pos == |src| then Step(NoChunk(EndOfInput), pos)
    else if |src| < pos + 8 then Step(NoChunk(Failed(Truncated)), |src|)
    else
      var length := IntAt(src, pos);
      var typeCode := IntAt(src, pos + 4);
      var kind := NewInstance(typeCode);
      if skipData && IsBulk(kind) then
        var skipped := ChunkValue(kind, length, typeCode, None, 0);
        var n := SkipCount(length);
        if n <= 0 then Step(Parsed(skipped), pos + 8)
        else if |src| < pos + 8 + n then Step(NoChunk(Failed(Truncated)), |src|)
        else Step(Parsed(skipped), pos + 8 + n)
      else if length < 0 then Step(NoChunk(Failed(NegativeLength)), pos + 8)
      else if |src| < pos + 12 + length then Step(NoChunk(Failed(Truncated)), |src|)
      else
        var data := src[pos + 8..pos + 8 + length];
        Step(Parsed(ChunkValue(kind, length, typeCode, Some(data), IntAt(src, pos + 8 + length))),
             pos + 12 + length)
  }

  /** A parsed chunk carries the header as read: `length` and `type` are the
      two big-endian integers at the start, and the variant is the one the
      type code selects. */
  lemma ReadKeepsHeader(src: seq<Int8>, pos: nat, skipData: bool)
    requires pos <= |src|
    ensures var r := ParseChunk(src, pos, skipData, false);
            r.result.Parsed? ==>
              && pos + 8 <= |src|
              && r.result.chunk.length == IntAt(src, pos)
              && r.result.chunk.typeCode == IntAt(src, pos + 4)
              && r.result.chunk.kind == NewInstance(r.result.chunk.typeCode)
  {
  }

  /** Skip path: for an IDAT or fdAT chunk read with `skipData`, the payload
      and CRC are passed over, `data` stays unset, and a chunk of length
      `length` advances the stream by exactly `8 + length + 4` bytes. */
  lemma ReadSkipPath(src: seq<Int8>, pos: nat)
    requires pos <= |src|
    ensures var r := ParseChunk(src, pos, true, false);
            r.result.Parsed? && IsBulk(r.result.chunk.kind) ==>
              && r.result.chunk.data.None?
              && r.result.chunk.crc == 0
              && (r.result.chunk.length >= 0 ==> r.next == pos + 12 + r.result.chunk.length)
  {
  }

  /** The skip path succeeds: an IDAT or fdAT header with a non-negative
      length, followed by at least `length + 4` bytes, reads with `skipData`
      as a chunk without payload or CRC, and the stream advances past the
      payload and the CRC, whatever stands before and after it. */
  lemma {:induction false} SkipPathReads(length: Int32, typeCode: Int32, body: seq<Int8>,
                                         before: seq<Int8>, after: seq<Int8>)
    requires IsBulk(NewInstance(typeCode)) && 0 <= length && |body| == length + 4
    ensures var src := before + IntToBytes(length) + IntToBytes(typeCode) + body + after;
            ParseChunk(src, |before|, true, false)
              == Step(Parsed(ChunkValue(NewInstance(typeCode), length, typeCode, None, 0)),
                      |before| + 12 + length)
  {
    var src := before + IntToBytes(length) + IntToBytes(typeCode) + body + after;
    var p := |before|;
    assert src[p..p + 4] == IntToBytes(length);
    assert src[p + 4..p + 8] == IntToBytes(typeCode);
    IntToBytesRoundTrip(length);
    IntToBytesRoundTrip(typeCode);
  }

  /** Full path: every other parsed chunk has a non-negative length, its
      `data` is the `length` bytes after the header, its `crc` is the next
      four bytes big-endian, and the stream advances by `8 + length + 4`. */
  lemma ReadFullPath(src: seq<Int8>, pos: nat, skipData: bool)
    requires pos <= |src|
    ensures var r := ParseChunk(src, pos, skipData, false);
            r.result.Parsed? && !(skipData && IsBulk(r.result.chunk.kind)) ==>
              var c := r.result.chunk;
              && 0 <= c.length
              && r.next == pos + 12 + c.length <= |src|
              && c.data == Some(src[pos + 8..pos + 8 + c.length])
              && c.crc == IntAt(src, pos + 8 + c.length)
              && WellFormed(c)
  {
  }

  /** A declared length that runs past the end of the stream is an error,
      never a short chunk; so is a header cut short. */
  lemma ReadRejectsTruncation(src: seq<Int8>, pos: nat)
    requires pos < |src|
    ensures |src| < pos + 8 ==> ParseChunk(src, pos, false, false) == Step(NoChunk(Failed(Truncated)), |src|)
    ensures pos + 8 <= |src| && 0 <= IntAt(src, pos) && |src| < pos + 12 + IntAt(src, pos) ==>
              ParseChunk(src, pos, false, false) == Step(NoChunk(Failed(Truncated)), |src|)
  {
  }

  /** Whatever `read` produced with the payload retained, `copy` writes back
      exactly the bytes `read` consumed, for known and unknown type codes
      alike. */
  lemma {:induction false} ReadThenEncode(src: seq<Int8>, pos: nat, skipData: bool)
    requires pos <= |src|
    ensures var r := ParseChunk(src, pos, skipData, false);
            r.result.Parsed? && r.result.chunk.data.Some? ==>
              Encoded(r.result.chunk) == src[pos..r.next]
  {
    var r := ParseChunk(src, pos, skipData, false);
    if r.result.Parsed? && r.result.chunk.data.Some? {
      var c := r.result.chunk;
      var n := c.length;
      BytesToIntRoundTrip(src[pos..pos + 4]);
      BytesToIntRoundTrip(src[pos + 4..pos + 8]);
      BytesToIntRoundTrip(src[pos + 8 + n..pos + 12 + n]);
      var payload := if HasPayload(c) then c.data.value else [];
      assert payload == src[pos + 8..pos + 8 + n];
    }
  }

  /** Whatever `copy` writes for a chunk that carries its payload, `read`
      (with the payload retained) turns back into the same chunk, wherever
      it stands in the stream and whatever follows it. */
  lemma {:induction false} EncodeThenRead(c: ChunkValue, before: seq<Int8>, after: seq<Int8>, skipData: bool)
    requires WellFormed(c) && c.data.Some?
    requires c.kind == NewInstance(c.typeCode)
    requires !(skipData && IsBulk(c.kind))
    ensures var src := before + Encoded(c) + after;
            ParseChunk(src, |before|, skipData, false) == Step(Parsed(c), |before| + |Encoded(c)|)
  {
    var src := before + Encoded(c) + after;
    var p := |before|;
    var n := c.length;
    assert src[p..p + 4] == IntToBytes(c.length);
    assert src[p + 4..p + 8] == IntToBytes(c.typeCode);
    assert src[p + 8..p + 8 + n] == c.data.value;
    assert src[p + 8 + n..p + 12 + n] == IntToBytes(c.crc);
    IntToBytesRoundTrip(c.length);
    IntToBytesRoundTrip(c.typeCode);
    IntToBytesRoundTrip(c.crc);
  }
}
