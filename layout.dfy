/**
 * The ICO container layout: a 6-byte ICONDIR header followed by one 16-byte
 * ICONDIRENTRY per image, every multi-byte field little-endian and no padding.
 * Reserved fields are written as zero and skipped when read.
 */
module IcoLayout {
  import opened Binary

  const ICON_DIR_SIZE: nat := 6
  const ENTRY_SIZE: nat := 16

  /** Header: reserved (u16, 0), type (u16, 1 icon / 2 cursor), image count (u16). */
  datatype IconDir = IconDir(iconType: int, imageCount: nat) {
    predicate Valid() { IsU16(iconType) && IsU16(imageCount) }
  }

  /**
   * Directory entry: width, height, colour count, reserved (one byte each),
   * colour planes, bits per pixel (u16 each), payload size and payload offset
   * from the start of the file (u32 each).
   */
  datatype IconDirEntry = IconDirEntry(
    width: byte, height: byte, colorCount: byte,
    colorPlanes: nat, bitsPerPixel: nat, size: nat, offset: nat)
  {
    predicate Valid() {
      IsU16(colorPlanes) && IsU16(bitsPerPixel) && IsU32(size) && IsU32(offset)
    }
  }

  function EncodeIconDir(d: IconDir): (r: seq<byte>)
    requires d.Valid()
    ensures |r| == ICON_DIR_SIZE
    ensures r[0] == 0 && r[1] == 0
    ensures GetU16(r, 2) == d.iconType && GetU16(r, 4) == d.imageCount
  {
    [0, 0] + PutU16(d.iconType) + PutU16(d.imageCount)
  }

  /** The header stored at `s[at..at + 6]`; the reserved field is skipped. */
  function DecodeIconDir(s: seq<byte>, at: nat): (d: IconDir)
    requires at + ICON_DIR_SIZE <= |s|
    ensures d.Valid()
    ensures EncodeIconDir(d) == [0, 0] + s[at + 2..at + ICON_DIR_SIZE]
  {
    U16Canonical(s, at + 2);
    U16Canonical(s, at + 4);
    assert s[at + 2..at + ICON_DIR_SIZE] == s[at + 2..at + 4] + s[at + 4..at + 6];
    IconDir(GetU16(s, at + 2), GetU16(s, at + 4))
  }

  function EncodeEntry(e: IconDirEntry): (r: seq<byte>)
    requires e.Valid()
    ensures |r| == ENTRY_SIZE
    ensures r[0] == e.width && r[1] == e.height && r[2] == e.colorCount && r[3] == 0
    ensures GetU16(r, 4) == e.colorPlanes && GetU16(r, 6) == e.bitsPerPixel
    ensures GetU32(r, 8) == e.size && GetU32(r, 12) == e.offset
  {
    [e.width, e.height, e.colorCount, 0]
      + PutU16(e.colorPlanes) + PutU16(e.bitsPerPixel)
      + PutU32(e.size) + PutU32(e.offset)
  }

  /** The entry stored at `s[at..at + 16]`; the reserved byte is skipped. */
  function DecodeEntry(s: seq<byte>, at: nat): (e: IconDirEntry)
    requires at + ENTRY_SIZE <= |s|
    ensures e.Valid()
  {
    IconDirEntry(s[at], s[at + 1], s[at + 2],
      GetU16(s, at + 4), GetU16(s, at + 6), GetU32(s, at + 8), GetU32(s, at + 12))
  }

  /** An entry decodes the same from a copy of its 16 bytes as from where it sits. */
  lemma DecodeEntryOfCopy(s: seq<byte>, at: nat, b: seq<byte>)
    requires at + ENTRY_SIZE <= |s| && b == s[at..at + ENTRY_SIZE]
    ensures DecodeEntry(b, 0) == DecodeEntry(s, at)
  {
    assert forall k | 0 <= k < ENTRY_SIZE :: b[k] == s[at + k];
  }

  /** Reading back an encoded header, wherever it sits, gives the header written. */
  lemma IconDirRoundTrip(d: IconDir, s: seq<byte>, at: nat)
    requires d.Valid() && at + ICON_DIR_SIZE <= |s|
    requires s[at..at + ICON_DIR_SIZE] == EncodeIconDir(d)
    ensures DecodeIconDir(s, at) == d
  {
    var r := EncodeIconDir(d);
    assert forall k | 0 <= k < ICON_DIR_SIZE :: s[at + k] == r[k];
  }

  /** A header whose reserved bytes are zero is re-encoded byte for byte. */
  lemma IconDirCanonical(s: seq<byte>, at: nat)
    requires at + ICON_DIR_SIZE <= |s| && s[at] == 0 && s[at + 1] == 0
    ensures EncodeIconDir(DecodeIconDir(s, at)) == s[at..at + ICON_DIR_SIZE]
  {
    assert s[at..at + ICON_DIR_SIZE] == [s[at], s[at + 1]] + s[at + 2..at + ICON_DIR_SIZE];
  }

  /** Reading back an encoded entry, wherever it sits, gives the entry written. */
  lemma EntryRoundTrip(e: IconDirEntry, s: seq<byte>, at: nat)
    requires e.Valid() && at + ENTRY_SIZE <= |s|
    requires s[at..at + ENTRY_SIZE] == EncodeEntry(e)
    ensures DecodeEntry(s, at) == e
  {
    var r := EncodeEntry(e);
    assert forall k | 0 <= k < ENTRY_SIZE :: s[at + k] == r[k];
  }

  /**
   * Re-encoding a decoded entry gives back its 16 bytes with the reserved
   * byte zeroed; an entry whose reserved byte is zero is re-encoded byte for
   * byte.
   */
  lemma EntryCanonical(s: seq<byte>, at: nat)
    requires at + ENTRY_SIZE <= |s|
    ensures EncodeEntry(DecodeEntry(s, at)) == s[at..at + 3] + [0] + s[at + 4..at + ENTRY_SIZE]
    ensures s[at + 3] == 0 ==> EncodeEntry(DecodeEntry(s, at)) == s[at..at + ENTRY_SIZE]
  {
    U16Canonical(s, at + 4);
    U16Canonical(s, at + 6);
    U32Canonical(s, at + 8);
    U32Canonical(s, at + 12);
    assert s[at..at + 3] == [s[at], s[at + 1], s[at + 2]];
    assert s[at + 4..at + ENTRY_SIZE]
      == s[at + 4..at + 6] + s[at + 6..at + 8] + s[at + 8..at + 12] + s[at + 12..at + 16];
    assert s[at..at + ENTRY_SIZE] == s[at..at + 3] + [s[at + 3]] + s[at + 4..at + ENTRY_SIZE];
  }

  /** The format stores a pixel dimension of 256 as 0. */
  predicate IsDimension(d: int) { 1 <= d <= 256 }

  function DecodeDimension(b: byte): (d: int)
    ensures IsDimension(d)
    ensures d % 256 == b as int
  {
    if b == 0 then 256 else b as int
  }

  function EncodeDimension(d: int): (b: byte)
    requires IsDimension(d)
    ensures DecodeDimension(b) == d
    ensures b == 0 <==> d == 256
  {
    (d % 256) as byte
  }

  /** Every stored byte stands for exactly one dimension. */
  lemma DimensionCanonical(b: byte)
    ensures EncodeDimension(DecodeDimension(b)) == b
  {
  }

  /**
   * Go's `byte(image.Width)`: keeps the dimension modulo 256, whatever its
   * size.
   */
  function DimensionByteAsWritten(d: nat): (b: byte)
    ensures b as int == d % 256
  {
    (d % 256) as byte
  }

  /** On the dimensions the format can hold, the conversion stores what the format expects. */
  lemma DimensionAsWrittenAgrees(d: int)
    requires IsDimension(d)
    ensures DimensionByteAsWritten(d) == EncodeDimension(d)
  {
  }

  /** A 300-pixel-wide image is stored as 44 and read back as 44 pixels wide. */
  lemma DimensionAsWrittenWraps()
    ensures DimensionByteAsWritten(300) == 44
    ensures DecodeDimension(DimensionByteAsWritten(300)) == 44 != 300
  {
  }
}
