/**
 * The BMP side of the codec: a classifier that asks whether an ICO payload
 * begins with a 40-byte BITMAPINFOHEADER, and the 14-byte BITMAPFILEHEADER
 * that turns a raw DIB payload into a standalone .bmp file.
 */
module Bitmap {
  import opened Wrappers
  import opened Binary
  import opened Io
  import opened IcoLayout

  const FILE_HEADER_SIZE: nat := 14
  const DIB_HEADER_SIZE: nat := 40
  /** "BM" */
  const SIGNATURE: seq<byte> := [0x42, 0x4D]

  /**
   * Reads a BITMAPINFOHEADER from the start of the payload and reports
   * whether its Size field is 40 and its ColorPlanes field (bytes 12..13) is
   * 1. A payload too short for the header gives false together with the read
   * error.
   */
  function IsBMP(icoBytes: seq<byte>): (r: (bool, Option<IoError>))
    ensures r.0 <==> DIB_HEADER_SIZE <= |icoBytes|
                     && GetU32(icoBytes, 0) == 40 && GetU16(icoBytes, 12) == 1
    ensures r.1.Some? <==> |icoBytes| < DIB_HEADER_SIZE
    ensures r.1 == Some(EOF) <==> icoBytes == []
    ensures r.1.Some? ==> r.1.value == (if icoBytes == [] then EOF else UnexpectedEOF)
  {
    match ReadFull(icoBytes, 0, DIB_HEADER_SIZE)
    case Err(e) => (false, Some(e))
    case Ok(dib) => (GetU32(dib, 0) == 40 && GetU16(dib, 12) == 1, None)
  }

  /** The answer depends only on bytes 0..3 and 12..13 of a long enough payload. */
  lemma IsBMPReadsOnlyProbeFields(a: seq<byte>, b: seq<byte>)
    requires DIB_HEADER_SIZE <= |a| && DIB_HEADER_SIZE <= |b|
    requires a[..4] == b[..4] && a[12..14] == b[12..14]
    ensures IsBMP(a) == IsBMP(b)
  {
    assert a[0] == a[..4][0] == b[0] && a[1] == b[..4][1] == b[1];
    assert a[2] == b[..4][2] == b[2] && a[3] == b[..4][3] == b[3];
    assert a[12] == a[12..14][0] == b[12] && a[13] == a[12..14][1] == b[13];
  }

  /**
   * The payload preceded by a BITMAPFILEHEADER: signature "BM", file size
   * 14 + entry.size computed in uint32 arithmetic, two zero reserved u16s and
   * pixel-data offset 14 + 40.
   */
  function AppendBitmapFileHeader(entry: IconDirEntry, icoBytes: seq<byte>): (r: seq<byte>)
    ensures |r| == FILE_HEADER_SIZE + |icoBytes|
    ensures r[..2] == SIGNATURE
    ensures GetU32(r, 2) == (FILE_HEADER_SIZE + entry.size) % U32_BOUND
    ensures r[6..10] == [0, 0, 0, 0]
    ensures GetU32(r, 10) == FILE_HEADER_SIZE + DIB_HEADER_SIZE
    ensures r[FILE_HEADER_SIZE..] == icoBytes
  {
    var header := SIGNATURE
      + PutU32((FILE_HEADER_SIZE + entry.size) % U32_BOUND)
      + [0, 0, 0, 0]
      + PutU32(FILE_HEADER_SIZE + DIB_HEADER_SIZE);
    header + icoBytes
  }

  /**
   * When the payload was read in full and the file fits in 4 GiB, the size
   * field of the synthesized header is the length of the synthesized file.
   */
  lemma BitmapFileSizeIsExact(entry: IconDirEntry, icoBytes: seq<byte>)
    requires entry.size == |icoBytes| && FILE_HEADER_SIZE + |icoBytes| < U32_BOUND
    ensures GetU32(AppendBitmapFileHeader(entry, icoBytes), 2)
         == |AppendBitmapFileHeader(entry, icoBytes)|
  {
  }
}
