/**
 * The MO file reader of src/parser.rs: the magic number picks the byte
 * order of the file's 32-bit words, and a file too short for the MO header
 * or with a foreign magic number is refused.
 */
module MoParser {
  import opened Wrappers
  import Gettext

  newtype byte = x: int | 0 <= x < 256

  /** The errors of src/parser.rs, without the I/O error (reading the file is left out). */
  datatype Error = BadMagic | Eof

  /** The two byte orders an MO file may be written in. */
  datatype ByteOrder = LittleEndian | BigEndian

  /** The MO magic number 0x950412de as a little-endian file stores it. */
  const LE_MAGIC: seq<byte> := [0xde, 0x12, 0x04, 0x95]

  /** The MO magic number as a big-endian file stores it. */
  const BE_MAGIC: seq<byte> := [0x95, 0x04, 0x12, 0xde]

  /** The MO magic number. */
  const MAGIC: nat := 0x950412de

  /** The size of the MO header: magic, revision and five more 32-bit words. */
  const HEADER_SIZE: nat := 28

  const U32_LIMIT: nat := 0x1_0000_0000

  // ---------------------------------------------------------------------
  // 32-bit words
  // ---------------------------------------------------------------------

  /** The 32-bit word held by the first four bytes of `buf` in byte order `order`. */
  function ReadU32(order: ByteOrder, buf: seq<byte>): (r: nat)
    requires |buf| >= 4
    ensures r < U32_LIMIT
  {
    var b0, b1, b2, b3 := buf[0] as nat, buf[1] as nat, buf[2] as nat, buf[3] as nat;
    match order
    case LittleEndian => b0 + 0x100 * b1 + 0x1_0000 * b2 + 0x100_0000 * b3
    case BigEndian => b3 + 0x100 * b2 + 0x1_0000 * b1 + 0x100_0000 * b0
  }

  /** The four bytes that store `x` in byte order `order`. */
  function WriteU32(order: ByteOrder, x: nat): (buf: seq<byte>)
    requires x < U32_LIMIT
    ensures |buf| == 4
  {
    var x1 := x / 0x100;
    var x2 := x1 / 0x100;
    var lsb := [(x % 0x100) as byte, (x1 % 0x100) as byte, (x2 % 0x100) as byte, (x2 / 0x100) as byte];
    match order
    case LittleEndian => lsb
    case BigEndian => [lsb[3], lsb[2], lsb[1], lsb[0]]
  }

  /** Reading back the bytes written for a word gives the word. */
  lemma ReadWrite(order: ByteOrder, x: nat)
    requires x < U32_LIMIT
    ensures ReadU32(order, WriteU32(order, x)) == x
  {
  }

  /** A byte and the rest of a number, split apart again by the base 256. */
  lemma SplitByte(b: nat, q: nat)
    requires b < 0x100
    ensures (b + 0x100 * q) % 0x100 == b && (b + 0x100 * q) / 0x100 == q
  {
  }

  /** Writing the word read from four bytes gives those bytes back. */
  lemma WriteRead(order: ByteOrder, buf: seq<byte>)
    requires |buf| == 4
    ensures WriteU32(order, ReadU32(order, buf)) == buf
  {
    var lsb := if order == LittleEndian then buf else [buf[3], buf[2], buf[1], buf[0]];
    var b0, b1, b2, b3 := lsb[0] as nat, lsb[1] as nat, lsb[2] as nat, lsb[3] as nat;
    var x := ReadU32(order, buf);
    assert x == b0 + 0x100 * (b1 + 0x100 * (b2 + 0x100 * b3));
    SplitByte(b0, b1 + 0x100 * (b2 + 0x100 * b3));
    SplitByte(b1, b2 + 0x100 * b3);
    SplitByte(b2, b3);
  }

  /** Only the first four bytes matter. */
  lemma ReadPrefix(order: ByteOrder, buf: seq<byte>, rest: seq<byte>)
    requires |buf| >= 4
    ensures ReadU32(order, buf + rest) == ReadU32(order, buf)
  {
  }

  /** The two byte orders read the same bytes reversed. */
  lemma OrdersMirror(buf: seq<byte>)
    requires |buf| >= 4
    ensures ReadU32(BigEndian, buf) == ReadU32(LittleEndian, [buf[3], buf[2], buf[1], buf[0]])
  {
  }

  // ---------------------------------------------------------------------
  // The magic number
  // ---------------------------------------------------------------------

  /** `get_read_u32_fn`: the byte order announced by the four bytes `magic`, if they are a magic number. */
  function GetReadU32Fn(magic: seq<byte>): (r: Option<ByteOrder>)
    ensures r == Some(LittleEndian) <==> magic == LE_MAGIC
    ensures r == Some(BigEndian) <==> magic == BE_MAGIC
    ensures r.Some? ==> |magic| == 4
  {
    if magic == LE_MAGIC then Some(LittleEndian)
    else if magic == BE_MAGIC then Some(BigEndian)
    else None
  }

  /** The byte order a magic number announces is the one that reads it as the MO magic number. */
  lemma MagicReadsBack(magic: seq<byte>)
    requires |magic| == 4
    ensures GetReadU32Fn(magic).Some? <==> exists order :: ReadU32(order, magic) == MAGIC
    ensures GetReadU32Fn(magic).Some? ==> ReadU32(GetReadU32Fn(magic).value, magic) == MAGIC
  {
    if GetReadU32Fn(magic).Some? {
      assert ReadU32(GetReadU32Fn(magic).value, magic) == MAGIC;
    } else {
      forall order
        ensures ReadU32(order, magic) != MAGIC
      {
        if ReadU32(order, magic) == MAGIC {
          assert WriteU32(order, MAGIC) == magic by {
            WriteRead(order, magic);
          }
        }
      }
    }
  }

  /** Every magic number is written in one byte order only. */
  lemma MagicOrdersDiffer()
    ensures LE_MAGIC != BE_MAGIC
    ensures WriteU32(LittleEndian, MAGIC) == LE_MAGIC && WriteU32(BigEndian, MAGIC) == BE_MAGIC
  {
  }

  /** The cases of `test_get_read_u32_fn`. */
  lemma GetReadU32FnExamples()
    ensures GetReadU32Fn([]) == None
    ensures GetReadU32Fn([0xde, 0x12, 0x04, 0x95, 0x00]) == None
    ensures GetReadU32Fn([0xde, 0x12, 0x04, 0x95]) == Some(LittleEndian)
    ensures GetReadU32Fn([0x95, 0x04, 0x12, 0xde]) == Some(BigEndian)
  {
  }

  // ---------------------------------------------------------------------
  // parse_catalog
  // ---------------------------------------------------------------------

  /**
   * What `parse_catalog` decides from the file contents: `Eof` for a file
   * shorter than the MO header, then `BadMagic` for an unknown magic
   * number, otherwise the byte order of the file.
   */
  function ParseOutcome(contents: seq<byte>): (r: Result<ByteOrder, Error>)
    ensures r == Err(Eof) <==> |contents| < HEADER_SIZE
    ensures r == Err(BadMagic) <==> |contents| >= HEADER_SIZE && contents[..4] != LE_MAGIC && contents[..4] != BE_MAGIC
    ensures r.Ok? ==> ReadU32(r.value, contents) == MAGIC
  {
    if |contents| < HEADER_SIZE then Err(Eof)
    else match GetReadU32Fn(contents[..4])
      case Some(order) =>
        MagicReadsBack(contents[..4]);
        ReadPrefix(order, contents[..4], contents[4..]);
        assert contents[..4] + contents[4..] == contents;
        Ok(order)
      case None => Err(BadMagic)
  }

  /**
   * `parse_catalog` on the whole contents of a file: an empty catalog when
   * the header is acceptable, the error `ParseOutcome` names otherwise.
   */
  method ParseCatalog(contents: seq<byte>) returns (r: Result<Gettext.Catalog, Error>)
    ensures r.Err? <==> ParseOutcome(contents).Err?
    ensures r.Err? ==> r.error == ParseOutcome(contents).error
    ensures r.Ok? ==> fresh(r.value) && r.value.strings == map[]
  {
    if |contents| < HEADER_SIZE {
      return Err(Eof);
    }
    var readU32 := GetReadU32Fn(contents[..4]);
    if readU32.None? {
      return Err(BadMagic);
    }
    var catalog := new Gettext.Catalog();
    r := Ok(catalog);
  }

  /** The padding the cases of `test_parse_catalog` append to their first bytes. */
  function Fluff(): (z: seq<byte>)
    ensures |z| == 24 && forall i :: 0 <= i < |z| ==> z[i] == 0
  {
    seq(24, _ => 0)
  }

  /** The cases of `test_parse_catalog`: 27 bytes are too few; 28 need a magic number. */
  lemma ParseOutcomeExamples()
    ensures ParseOutcome([1, 2, 3] + Fluff()) == Err(Eof)
    ensures ParseOutcome([1, 2, 3, 4] + Fluff()) == Err(BadMagic)
    ensures ParseOutcome([0x95, 0x04, 0x12, 0xde] + Fluff()) == Ok(BigEndian)
    ensures ParseOutcome([0xde, 0x12, 0x04, 0x95] + Fluff()) == Ok(LittleEndian)
  {
    var z := Fluff();
    assert ([1, 2, 3, 4] + z)[..4] == [1, 2, 3, 4];
    assert (BE_MAGIC + z)[..4] == BE_MAGIC;
    assert (LE_MAGIC + z)[..4] == LE_MAGIC;
  }
}
