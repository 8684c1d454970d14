/** The imperative side of `Chunk.java`: `read` advances a byte stream and
    fills in a freshly created chunk object field by field, and `copy` writes
    a chunk into a destination array at an offset. Each is proved against the
    value-level definitions of module `ChunkFormat`. */
module ChunkIO {
  import opened ByteCodec
  import opened ChunkType
  import opened ChunkFormat

  /** An `InputStream` over a fixed sequence of bytes, with a read position. */
  class InputSource {
    const bytes: seq<Int8>
    var pos: nat

    ghost predicate Valid()
      reads this
    {
      pos <= |bytes|
    }

    constructor (bytes: seq<Int8>)
      ensures Valid() && this.bytes == bytes && pos == 0
    {
      this.bytes := bytes;
      pos := 0;
    }

    /** Reads `n` bytes. When fewer are left, it consumes them all and fails. */
    method ReadFully(n: nat) returns (r: Option<seq<Int8>>)
      requires Valid()
      modifies this
      ensures Valid()
      ensures old(pos) + n <= |bytes| ==> r == Some(bytes[old(pos)..old(pos) + n]) && pos == old(pos) + n
      ensures |bytes| < old(pos) + n ==> r.None? && pos == |bytes|
    {
      if pos + n <= |bytes| {
        r := Some(bytes[pos..pos + n]);
        pos := pos + n;
      } else {
        r := None;
        pos := |bytes|;
      }
    }

    /** `skip(n)`: a count that is not positive skips nothing; a count past
      the end consumes what is left and fails. */
    method Skip(n: int) returns (ok: bool)
      requires Valid()
      modifies this
      ensures Valid()
      ensures n <= 0 ==> ok && pos == old(pos)
      ensures 0 < n && old(pos) + n <= |bytes| ==> ok && pos == old(pos) + n
      ensures 0 < n && |bytes| < old(pos) + n ==> !ok && pos == |bytes|
    {
      if n <= 0 {
        ok := true;
      } else if pos + n <= |bytes| {
        ok := true;
        pos := pos + n;
      } else {
        ok := false;
        pos := |bytes|;
      }
    }
  }

  /** What `read` returns: a chunk object, or the reason there is none. */
  datatype ReadOutcome = Got(chunk: Chunk) | Stopped(why: Stop)

  /** A chunk object. The variant is fixed when it is created; `read` then
      assigns the four fields. */
  class Chunk {
    const kind: Kind
    var length: Int32
    var typeCode: Int32
    var data: Option<seq<Int8>>
    var crc: Int32

    ghost predicate Valid()
      reads this
    {
      WellFormed(Value())
    }

    /** The chunk's fields as a value. */
    function Value(): ChunkValue
      reads this
    {
      ChunkValue(kind, length, typeCode, data, crc)
    }

    /** `newInstance(...)` followed by Java's default field values. */
    constructor (kind: Kind)
      ensures this.kind == kind && length == 0 && typeCode == 0 && data.None? && crc == 0
    {
      this.kind := kind;
      length, typeCode, data, crc := 0, 0, None, 0;
    }

    /** `readIntFromInputStream`: the next four bytes, big-endian. */
    static method ReadIntFromStream(src: InputSource) returns (r: Option<Int32>)
      requires src.Valid()
      modifies src
      ensures src.Valid()
      ensures old(src.pos) + 4 <= |src.bytes| ==> r == Some(IntAt(src.bytes, old(src.pos))) && src.pos == old(src.pos) + 4
      ensures |src.bytes| < old(src.pos) + 4 ==> r.None? && src.pos == |src.bytes|
    {
      var bytes := src.ReadFully(4);
      if bytes.None? {
        return None;
      }
      r := Some(ByteArrayToInt(bytes.value));
    }

    /** `read`: one chunk from the stream, or `Interrupted` without consuming
      anything when the interrupt flag is set. The result and the new stream
      position are those of `ParseChunk`. */
    static method Read(src: InputSource, skipData: bool, interrupted: bool) returns (r: ReadOutcome)
      requires src.Valid()
      modifies src
      ensures src.Valid()
      ensures var step := ParseChunk(src.bytes, old(src.pos), skipData, interrupted);
              && src.pos == step.next
              && (r.Got? <==> step.result.Parsed?)
              && (r.Stopped? ==> step.result == NoChunk(r.why))
              && (r.Got? ==> fresh(r.chunk) && r.chunk.Valid() && r.chunk.Value() == step.result.chunk)
    {
      if interrupted {
        return Stopped(Interrupted);
      }
      if src.pos == |src.bytes| {
        return Stopped(EndOfInput);
      }
      var length := ReadIntFromStream(src);
      if length.None? {
        return Stopped(Failed(Truncated));
      }
      var typeCode := ReadIntFromStream(src);
      if typeCode.None? {
        return Stopped(Failed(Truncated));
      }
      var chunk := new Chunk(NewInstance(typeCode.value));
      chunk.typeCode := typeCode.value;
      chunk.length := length.value;
      if skipData && IsBulk(chunk.kind) {
        var ok := src.Skip(SkipCount(chunk.length));
        if !ok {
          return Stopped(Failed(Truncated));
        }
      } else {
        if chunk.length < 0 {
          return Stopped(Failed(NegativeLength));
        }
        var payload := src.ReadFully(chunk.length);
        if payload.None? {
          return Stopped(Failed(Truncated));
        }
        chunk.data := payload;
        var crc := ReadIntFromStream(src);
        if crc.None? {
          return Stopped(Failed(Truncated));
        }
        chunk.crc := crc.value;
      }
      return Got(chunk);
    }

    /** `getRawDataLength`, without wrap-around: for a chunk that carries its
      payload, the number of bytes `copy` writes. */
    function GetRawDataLength(): (n: int)
      reads this
      ensures WellFormed(Value()) && data.Some? ==> n == EncodedSize(Value())
    {
      RawDataLength(Value())
    }

    /** `copy`: length, type, payload (when there is one) and CRC, back to back
      from `offset`; nothing else in `dst` changes. */
    method Copy(dst: array<Int8>, offset: nat)
      requires Valid()
      requires offset + EncodedSize(Value()) <= dst.Length
      modifies dst
      ensures dst[..] == Splice(old(dst[..]), offset, Encoded(Value()))
      ensures dst[offset..offset + 4] == IntToBytes(length)
      ensures dst[offset + 4..offset + 8] == IntToBytes(typeCode)
      ensures HasPayload(Value()) ==>
                && dst[offset + 8..offset + 8 + length] == data.value
                && dst[offset + 8 + length..offset + 12 + length] == IntToBytes(crc)
      ensures !HasPayload(Value()) ==> dst[offset + 8..offset + 12] == IntToBytes(crc)
      ensures forall i | 0 <= i < dst.Length && !(offset <= i < offset + EncodedSize(Value())) :: dst[i] == old(dst[i])
    {
      ghost var s0 := dst[..];
      ghost var c := Value();
      var at := offset;
      CopyLength(dst, at);
      at := at + 4;
      CopyTypeCode(dst, at);
      SpliceTwice(s0, offset, IntToBytes(length), IntToBytes(typeCode));
      at := at + 4;
      ghost var written := IntToBytes(length) + IntToBytes(typeCode);
      if data.Some? && |data.value| > 0 {
        CopyData(dst, at);
        SpliceTwice(s0, offset, written, data.value);
        written := written + data.value;
        at := at + length;
      }
      CopyCrc(dst, at);
      SpliceTwice(s0, offset, written, IntToBytes(crc));
      assert written + IntToBytes(crc) == Encoded(c);
      CopyLayout(s0, offset, c);
    }

    /** `copyLength`: the length, big-endian, at `dst[offset..offset + 4]`. */
    method CopyLength(dst: array<Int8>, offset: nat)
      requires offset + 4 <= dst.Length
      modifies dst
      ensures dst[..] == Splice(old(dst[..]), offset, IntToBytes(length))
    {
      dst[offset] := ReadIntByByte(length, 0);
      dst[offset + 1] := ReadIntByByte(length, 1);
      dst[offset + 2] := ReadIntByByte(length, 2);
      dst[offset + 3] := ReadIntByByte(length, 3);
    }

    /** `copyTypeCode`: the type code, big-endian, at `dst[offset..offset + 4]`. */
    method CopyTypeCode(dst: array<Int8>, offset: nat)
      requires offset + 4 <= dst.Length
      modifies dst
      ensures dst[..] == Splice(old(dst[..]), offset, IntToBytes(typeCode))
    {
      dst[offset] := ReadIntByByte(typeCode, 0);
      dst[offset + 1] := ReadIntByByte(typeCode, 1);
      dst[offset + 2] := ReadIntByByte(typeCode, 2);
      dst[offset + 3] := ReadIntByByte(typeCode, 3);
    }

    /** `copyData`: `System.arraycopy` of the `length` payload bytes to
      `dst[offset..offset + length]`. */
    method CopyData(dst: array<Int8>, offset: nat)
      requires Valid() && data.Some?
      requires offset + length <= dst.Length
      modifies dst
      ensures dst[..] == Splice(old(dst[..]), offset, data.value)
    {
      forall i | 0 <= i < length {
        dst[offset + i] := data.value[i];
      }
    }

    /** `copyCrc`: the CRC, big-endian, at `dst[offset..offset + 4]`. */
    method CopyCrc(dst: array<Int8>, offset: nat)
      requires offset + 4 <= dst.Length
      modifies dst
      ensures dst[..] == Splice(old(dst[..]), offset, IntToBytes(crc))
    {
      dst[offset] := ReadIntByByte(crc, 0);
      dst[offset + 1] := ReadIntByByte(crc, 1);
      dst[offset + 2] := ReadIntByByte(crc, 2);
      dst[offset + 3] := ReadIntByByte(crc, 3);
    }
  }

  /** `s` with `w` written over it from `offset` on. */
  function Splice<T>(s: seq<T>, offset: nat, w: seq<T>): (r: seq<T>)
    requires offset + |w| <= |s|
    ensures |r| == |s|
  {
    s[..offset] + w + s[offset + |w|..]
  }

  /** Writing `w` and then, right after it, `v` is writing `w + v`. */
  lemma SpliceTwice<T>(s: seq<T>, offset: nat, w: seq<T>, v: seq<T>)
    requires offset + |w| + |v| <= |s|
    ensures Splice(Splice(s, offset, w), offset + |w|, v) == Splice(s, offset, w + v)
  {
    var t := Splice(s, offset, w);
    assert t[..offset + |w|] == s[..offset] + w;
    assert t[offset + |w| + |v|..] == s[offset + |w| + |v|..];
  }

  /** What `Copy` promises, from the spliced contents of the array alone. */
  lemma CopyLayout(s: seq<Int8>, offset: nat, c: ChunkValue)
    requires WellFormed(c)
    requires offset + EncodedSize(c) <= |s|
    ensures var d := Splice(s, offset, Encoded(c));
            && d[offset..offset + 4] == IntToBytes(c.length)
            && d[offset + 4..offset + 8] == IntToBytes(c.typeCode)
            && (HasPayload(c) ==>
                  && d[offset + 8..offset + 8 + c.length] == c.data.value
                  && d[offset + 8 + c.length..offset + 12 + c.length] == IntToBytes(c.crc))
            && (!HasPayload(c) ==> d[offset + 8..offset + 12] == IntToBytes(c.crc))
            && forall i | 0 <= i < |s| && !(offset <= i < offset + EncodedSize(c)) :: d[i] == s[i]
  {
    var e := Encoded(c);
    var d := Splice(s, offset, e);
    SpliceKeepsRest(s, offset, e);
    EncodedLayout(c);
    assert d[offset..offset + |e|] == e;
    assert d[offset..offset + 4] == e[..4];
    assert d[offset + 4..offset + 8] == e[4..8];
    if HasPayload(c) {
      assert d[offset + 8..offset + 8 + c.length] == e[8..8 + c.length];
      assert d[offset + 8 + c.length..offset + 12 + c.length] == e[8 + c.length..12 + c.length];
    } else {
      assert d[offset + 8..offset + 12] == e[8..12];
    }
  }

  /** A splice holds `w` at `offset` and leaves every other element alone. */
  lemma SpliceKeepsRest<T>(s: seq<T>, offset: nat, w: seq<T>)
    requires offset + |w| <= |s|
    ensures Splice(s, offset, w)[offset..offset + |w|] == w
    ensures forall i | 0 <= i < |s| && !(offset <= i < offset + |w|) :: Splice(s, offset, w)[i] == s[i]
  {
  }
}
