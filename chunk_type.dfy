/** The closed dispatch from a chunk's type code to its variant (`newInstance`).
    The six known codes are the four ASCII letters of their names packed
    big-endian into an `int`; every other code selects the generic chunk. */
module ChunkType {
  import opened ByteCodec

  /** The variant a chunk is constructed as: one per subclass of `Chunk`,
      plus `Generic` for the base class itself. */
  datatype Kind = IHDR | IDAT | IEND | ACTL | FCTL | FDAT | Generic

  const IHDR_ID: Int32 := 0x4948_4452
  const IDAT_ID: Int32 := 0x4944_4154
  const IEND_ID: Int32 := 0x4945_4E44
  const ACTL_ID: Int32 := 0x6163_544C
  const FCTL_ID: Int32 := 0x6663_544C
  const FDAT_ID: Int32 := 0x6664_4154

  const KNOWN_IDS: set<Int32> := {IHDR_ID, IDAT_ID, IEND_ID, ACTL_ID, FCTL_ID, FDAT_ID}

  /** The `ID` constant of each known variant's class. */
  function Id(k: Kind): Int32
    requires !k.Generic?
  {
    match k
    case IHDR => IHDR_ID
    case IDAT => IDAT_ID
    case IEND => IEND_ID
    case ACTL => ACTL_ID
    case FCTL => FCTL_ID
    case FDAT => FDAT_ID
  }

  /** `newInstance`: the variant selected by a type code. A known code selects
      the variant whose `ID` it is; every other code selects `Generic`. */
  function NewInstance(typeCode: Int32): (k: Kind)
    ensures k.Generic? <==> typeCode !in KNOWN_IDS
    ensures !k.Generic? ==> Id(k) == typeCode
  {
    if typeCode == IHDR_ID then IHDR
    else if typeCode == IDAT_ID then IDAT
    else if typeCode == IEND_ID then IEND
    else if typeCode == ACTL_ID then ACTL
    else if typeCode == FCTL_ID then FCTL
    else if typeCode == FDAT_ID then FDAT
    else Generic
  }

  /** Every known variant is selected by its own `ID`, so the dispatch and the
      `ID` table are inverse to each other. */
  lemma NewInstanceOfId(k: Kind)
    requires !k.Generic?
    ensures NewInstance(Id(k)) == k
  {
    match k
    case IHDR =>
    case IDAT =>
    case IEND =>
    case ACTL =>
    case FCTL =>
    case FDAT =>
  }

  /** The bulk pixel-bearing variants (`IDATChunk`, `FDATChunk`), whose
      payload `read` may skip. */
  predicate IsBulk(k: Kind)
  {
    k == IDAT || k == FDAT
  }

  /** The code of a four-letter ASCII name, packed big-endian. */
  function AsciiCode(name: string): (code: Int32)
    requires |name| == 4
    requires forall i | 0 <= i < 4 :: name[i] < 128 as char
    ensures Unsigned32(code) / 0x100_0000 == name[0] as int
  {
    ByteArrayToInt([name[0] as int, name[1] as int, name[2] as int, name[3] as int])
  }

  /** Each `ID` constant spells its chunk name in ASCII. */
  lemma IdsSpellNames()
    ensures AsciiCode("IHDR") == IHDR_ID && AsciiCode("IDAT") == IDAT_ID
    ensures AsciiCode("IEND") == IEND_ID && AsciiCode("acTL") == ACTL_ID
    ensures AsciiCode("fcTL") == FCTL_ID && AsciiCode("fdAT") == FDAT_ID
  {
  }
}
