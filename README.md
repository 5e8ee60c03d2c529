# ICO codec of package `favicon`, modelled in Dafny

Package `favicon` packs a list of PNG images into one Windows ICO file and
unpacks an ICO file into one file per image, either as `.png` (the payload as
stored) or as `.bmp` (the payload behind a synthesized BITMAPFILEHEADER).

The ICO file is a 6-byte ICONDIR header {reserved 0, type, image count},
then one 16-byte ICONDIRENTRY per image {width, height, colour count,
reserved, colour planes, bits per pixel, payload size, payload offset}, then
the payloads. All fields are little-endian and there is no padding.

The model is split into modules, one per concern:

- `Binary` holds the byte type and the little-endian uint16/uint32 put and get, with their round trips.
- `Io` models the end-of-file behaviour of the Go reads the codec makes:
  - `ReadFull` is `io.ReadFull` as `binary.Read` uses it.
  - `ReadAt` is a `Seek` followed by one `os.File.Read`.
  - `IoError` names the errors: `EOF`, `UnexpectedEOF`, and a refused write.
- `IcoLayout` holds the ICONDIR and ICONDIRENTRY records and their encoders and decoders. It also holds the "0 means 256" dimension byte.
- `Text` renders numbers in decimal, as Go's `%d` does, and proves that decimal rendering is injective.
- `Bitmap` holds `isBMP` and `appendBitmapFileHeader` as functions over byte sequences.
- `Codec` holds the imperative core:
  - `Pack` is written as methods with loops: a directory pass that carries the running offset, and a payload pass.
  - The class `Favicon` holds the source bytes, the read cursor, the header and the entries. Its methods `ReadIconDir` and `ReadEntries` update those fields, and `SaveAsPNGs` and `SaveAsBMPs` are loops over the entries.
  - `New` opens a file.
  - Each method is proved against a specification function: `PackedBytes`, `ParseIconDir`, `ParseEntries`, `Parse` or `ExportAll`.
- `CodecProofs` proves what those functions promise:
  - the packed layout;
  - that reading a packed file gives back the directory the packer wrote;
  - extraction order and stop-at-first-error;
  - output names and overwrites by later entries with the same dimensions;
  - pack-then-unpack: packing then extracting gives back every image.

The file system is a list of `(path, bytes)` writes. The paths it refuses to write are given as a parameter, `unwritable`. The packer's inputs are `(width, height, contents)` triples: the width and height are what the PNG decoder would report.

Three behaviours of the code that the model keeps:

- `isBMP` on a payload shorter than 40 bytes returns false together with the read error (`EOF` or `UnexpectedEOF`), not false alone. Its caller discards that error.
- The extractor does one `Read` after the `Seek`. If the file ends inside the payload, the read is short and returns no error. The unread rest of the zeroed buffer is written out as zeros.
  - The read fails only when the offset is at or past the end of the file and the size is not zero.
- The reader accepts any value in the header's type field.

## Model

| member | source | states |
|---|---|---|
| Binary.PutU16 | favicon/favicon.go:21-25 | a uint16 field is two bytes, low byte first, and reads back as the value written |
| Binary.PutU32 | favicon/favicon.go:34-35 | a uint32 field is four bytes, low half first, and reads back as the value written |
| Binary.U16Canonical | favicon/favicon.go:32-33 | any two bytes are the encoding of the uint16 they hold |
| Binary.U32Canonical | favicon/favicon.go:34-35 | any four bytes are the encoding of the uint32 they hold |
| Io.ReadFull | favicon/favicon.go:127 | `binary.Read` of n bytes succeeds exactly when n bytes are there and returns them; otherwise it fails with EOF when no byte is left, else with UnexpectedEOF |
| Io.ReadAt | favicon/favicon.go:148-151 | seek and one read: fails (EOF) only when the offset is at or past the end and the size is not zero; returns exactly `size` bytes, the slice when it fits, else the available tail followed by zeros |
| IcoLayout.EncodeIconDir | favicon/favicon.go:21-25 | the header is 6 bytes: reserved 0, then type and image count as little-endian uint16 |
| IcoLayout.DecodeIconDir | favicon/favicon.go:127 | the header read from 6 bytes re-encodes to those bytes with the reserved field zeroed: only the reserved field is lost |
| IcoLayout.IconDirRoundTrip | favicon/favicon.go:21-25 | decoding an encoded header, at any position, gives the header back |
| IcoLayout.IconDirCanonical | favicon/favicon.go:21-25 | a 6-byte header with zero reserved bytes re-encodes to the same bytes |
| IcoLayout.EncodeEntry | favicon/favicon.go:27-36 | an entry is 16 bytes: width, height, colour count, reserved 0, planes, bit depth, size, offset, at their fixed positions |
| IcoLayout.EntryRoundTrip | favicon/favicon.go:27-36 | decoding an encoded entry, at any position, gives the entry back; the reserved byte is skipped |
| IcoLayout.DecodeEntry | favicon/favicon.go:137 | the entry read from 16 bytes has every field within its width; its inverse relation to EncodeEntry is EntryRoundTrip and EntryCanonical |
| IcoLayout.EntryCanonical | favicon/favicon.go:27-36 | re-encoding a decoded entry gives back its 16 bytes with the reserved byte zeroed, so 16 bytes with a zero reserved byte re-encode to themselves |
| IcoLayout.DecodeDimension | favicon/favicon.go:28-29 | a dimension byte stands for 1..256, with 0 meaning 256 |
| IcoLayout.EncodeDimension | favicon/favicon.go:28-29 | a dimension in 1..256 is stored so that it decodes back to itself, and as 0 exactly when it is 256 |
| IcoLayout.DimensionCanonical | favicon/favicon.go:28-29 | every dimension byte is the encoding of the dimension it stands for |
| IcoLayout.DimensionByteAsWritten | favicon/favicon.go:78-79 | the conversion keeps the pixel count modulo 256 |
| IcoLayout.DimensionAsWrittenAgrees | favicon/favicon.go:78-79 | on 1..256 the conversion stores what the format expects |
| IcoLayout.DimensionAsWrittenWraps | favicon/favicon.go:78-79 | a 300-pixel dimension is stored as 44 and reads back as 44 |
| Text.Decimal | favicon/favicon.go:161 | `%d` of a number is a non-empty string of digits, one digit long exactly for numbers below 10 |
| Text.DecimalExamples | favicon/favicon.go:161 | 0, 9, 16 and 255 print as "0", "9", "16" and "255" |
| Text.DecimalInjective | favicon/favicon.go:161 | different numbers print differently |
| Text.SplitAtSeparator | favicon/favicon.go:161 | a digit string followed by a non-digit separator splits in only one way |
| Bitmap.IsBMP | favicon/bitmap.go:34-50 | true exactly when the payload has 40 bytes or more, its uint32 at 0 is 40 and its uint16 at 12 is 1; an error exactly when it is shorter than 40 bytes: EOF when it is empty, UnexpectedEOF otherwise |
| Bitmap.IsBMPReadsOnlyProbeFields | favicon/bitmap.go:45 | two payloads of 40 bytes or more that agree on bytes 0..3 and 12..13 are classified alike |
| Bitmap.AppendBitmapFileHeader | favicon/bitmap.go:52-75 | the output is 14 + payload bytes long: "BM", file size 14 + entry size (uint32 arithmetic), four zero bytes, pixel offset 54, then the payload unchanged |
| Bitmap.BitmapFileSizeIsExact | favicon/bitmap.go:58 | when the payload was read in full, the header's size field is the length of the output |
| Codec.TotalSizeMonotone | favicon/favicon.go:90 | the running offset never passes the end of the file |
| Codec.PlannedEntriesStep | favicon/favicon.go:84-90 | each entry is written at the running offset, and the offset then grows by that entry's size |
| Codec.WriteEntries | favicon/favicon.go:60-91 | the directory loop writes entry i at offset 6 + 16N + the sizes of images before i, for every image; it stops at the first image whose dimensions the byte fields cannot hold, and only then |
| Codec.WritePayloads | favicon/favicon.go:93-104 | the payload loop writes every file's bytes in order with no padding |
| Codec.PackedBytes | favicon/favicon.go:38-107 | the packed file is 6 + 16N + the sum of the sizes long and starts with reserved 0, type 1 and count N |
| Codec.Pack | favicon/favicon.go:38-107 | the output is the header {0, 1, N}, the directory, then the payloads; it is an error exactly when some image's dimensions are outside 1..256, naming the first such image |
| Codec.ParseIconDir | favicon/favicon.go:126-132 | the header read at a position succeeds exactly when 6 bytes are there and is the header stored there; otherwise EOF when no byte is left, else UnexpectedEOF |
| Codec.ParseEntries | favicon/favicon.go:134-144 | a successful directory read returns exactly the declared number of entries |
| Codec.ParseEntriesReadsDirectory | favicon/favicon.go:134-144 | count entries can be read at a position exactly when 16 * count bytes are there, entry i is the one stored 16i bytes further on, and a failure is EOF or UnexpectedEOF |
| Codec.ParseEntriesStaysFailed | favicon/favicon.go:137-140 | once an entry read fails, reading further entries reports that same failure |
| Codec.Parse | favicon/favicon.go:109-124 | opening succeeds exactly when the file holds the 6-byte header and the 16 * count bytes of directory it declares, whatever the type; the header and entry i are the ones stored at 0 and 6 + 16i; a failure is EOF or UnexpectedEOF, EOF for an empty file |
| Codec.ExportName | favicon/favicon.go:161 | the output name starts with `<root>_` and ends with `.png` or `.bmp` as the format says |
| Codec.ExportEntry | favicon/favicon.go:147-165 | one iteration succeeds exactly when the read succeeds (size 0, or offset before the end) and the name is writable; the write goes to the entry's name, holds size bytes (plus the 14-byte header for BMP) and ends with the entry's bytes when they lie in the file; a failed read gives EOF, a refused write WriteFailed(name) |
| Codec.RunSteps | favicon/favicon.go:147-167 | extraction writes at most one file per entry, and one per entry when nothing failed |
| Codec.RunStepsInOrder | favicon/favicon.go:147-167 | write i is entry i's output, and a stop reports the error of the first failing entry |
| Codec.ExportAll | favicon/favicon.go:146-168 | the extraction writes entry i's output as its i-th file, all of them when nothing failed, and otherwise stops with the error of the entry after the last one written |
| Codec.RunStepsStopsAtError | favicon/favicon.go:152-153 | after the first failure no further entry is processed |
| Codec.Favicon.constructor | favicon/favicon.go:109-111 | a new favicon holds the file, with the cursor at its start and nothing read yet |
| Codec.Favicon.ReadIconDir | favicon/favicon.go:126-132 | reads the 6-byte header at the cursor and advances the cursor by 6; on a short read the header is unchanged and the error is returned |
| Codec.Favicon.ReadEntries | favicon/favicon.go:134-144 | appends the declared number of entries, read in order right after the cursor; on a short read of entry k it keeps exactly the k entries read before it, returns that read's error and leaves the cursor where the short read left it |
| Codec.Favicon.SaveAsPNGs | favicon/favicon.go:146-168 | writes each payload unchanged under `<root>_<W>x<H>.png` in directory order, stopping at the first failed read or write |
| Codec.Favicon.SaveAsBMPs | favicon/favicon.go:170-191 | writes each payload behind a bitmap file header under `<root>_<W>x<H>.bmp` in directory order, stopping at the first failed read or write |
| Codec.New | favicon/favicon.go:109-124 | opening a file succeeds exactly when its header and every declared entry can be read, and then holds them; otherwise it returns the first read error and no favicon |
| CodecProofs.EncodeEntriesAt | favicon/favicon.go:87 | entry i occupies bytes 16i..16i+16 of the directory |
| CodecProofs.PayloadsAt | favicon/favicon.go:93-104 | payload i starts after the sizes of the payloads before it |
| CodecProofs.PackedHeader | favicon/favicon.go:39-43 | the packed file is 6 + 16N + the sum of sizes long, starts with two zero bytes, and its header reads as type 1 with N images |
| CodecProofs.PlannedEntryFields | favicon/favicon.go:60-90 | entry i stores the image's dimensions (256 as 0), zero colour count, planes and bit depth, the payload size; the first offset is 6 + 16N and each later offset is the previous offset plus the previous size |
| CodecProofs.PackedEntryAt | favicon/favicon.go:56-91 | the 16 bytes after the header and i earlier entries are entry i |
| CodecProofs.PackedPayloadAt | favicon/favicon.go:56-104 | every entry's [offset, offset + size) lies in the packed file and holds exactly that image's bytes |
| CodecProofs.TwoImageExample | favicon/favicon.go:38-104 | a 16x16 image of 800 bytes and a 32x32 image of 2000 bytes pack with offsets 38 and 838 into 2838 bytes |
| CodecProofs.ParseIconDirReadsHeader | favicon/favicon.go:126-132 | the header can be read exactly when the file has 6 bytes, whatever the type field holds; an empty file gives EOF |
| CodecProofs.PackedEntryDecodes | favicon/favicon.go:137 | reading entry i of a packed file gives the entry the packer wrote |
| CodecProofs.ParsePacked | favicon/favicon.go:109-144 | opening a packed file gives back the header {1, N} and exactly the directory the packer wrote |
| CodecProofs.RunStepsSucceed | favicon/favicon.go:147-167 | when no entry fails, one file is written per entry, in order |
| CodecProofs.NumeralPairParts | favicon/favicon.go:161 | a name `<p><w>x<h><ext>` with digit strings w and h determines w and h |
| CodecProofs.ExportNameInjective | favicon/favicon.go:161 | two entries get the same file name exactly when their stored width and height agree |
| CodecProofs.ApplyWritesUntouched | favicon/favicon.go:162 | a path no write touches keeps what it held |
| CodecProofs.LastWriteWins | favicon/favicon.go:162 | a file holds what the last write to its path put there |
| CodecProofs.PathsDiffer | favicon/favicon.go:161 | writes for entries of different dimensions go to different paths |
| CodecProofs.ExportedFileContents | favicon/favicon.go:146-168 | after a complete extraction, the file named after entry i holds entry i's output unless a later entry has the same width and height |
| CodecProofs.ExportEntryOfPayload | favicon/favicon.go:148-162 | an entry whose bytes lie in the file exports exactly those bytes (PNG) or them behind a bitmap header (BMP) under its name |
| CodecProofs.ExportPackedEntry | favicon/favicon.go:146-191 | extracting entry i of a packed file reads back exactly image i's bytes |
| CodecProofs.UnpackedFile | favicon/favicon.go:161-186 | the file for image i is named after its dimensions modulo 256 and holds its bytes (PNG) or its bytes behind a 14-byte header (BMP) |
| CodecProofs.PackThenUnpack | favicon/favicon.go:38-191 | packing N images, opening the result and extracting it writes N files, image i's under its dimension name, with its exact bytes (PNG) or its bytes behind a bitmap file header (BMP) |

## Left out

- Command-line wiring (cmd/root.go, cmd/pack/pack.go, cmd/unpack/unpack.go) is not part of this model: folder traversal, base-name stripping and exit codes have no logic of the codec in them.
- File-system effects are not modelled: creating the output directory and file, `Sync`, `Open`/`Stat`, deferred closes, and file permissions. Inputs are byte sequences, and written files are a list of (path, bytes) writes. A write fails exactly when its path is in the `unwritable` parameter.
- `image.DecodeConfig`, the PNG decoder, is a foreign library. The packer takes each image's width and height as inputs. The source ignores the decoder's error, and the model does not reproduce that.
- Codec.Pack: the integer truncations `uint16(len(files))`, `uint32(fi.Size())` and the wrapping uint32 running offset are replaced by the precondition that there are fewer than 65536 images and the file is shorter than 2^32 bytes.
- Codec.Pack: a failed pack returns an error and no bytes. The source panics and leaves a partial output file behind.
- Codec.Favicon.SaveAsPNGs: the call to `isBMP` and the warning it prints are left out. The result only drives a diagnostic and never changes what is written. `isBMP` itself is modelled as `Bitmap.IsBMP`.
- Codec.Favicon.SaveAsPNGs and Codec.Favicon.SaveAsBMPs: the extraction reads by position and does not move `pos`, so the model does not capture where the shared cursor is left. The ignored `Seek` error is not modelled either.
- Io.ReadAt: a regular file's `Read` is taken to return every byte available up to the buffer size. Reads that the operating system splits into smaller chunks (above 1 GiB) are not modelled.
- Bitmap.AppendBitmapFileHeader: writing to a `bytes.Buffer` cannot fail, so the error result is left out.
- The DIB header fields other than Size and ColorPlanes are not modelled, because nothing reads them.
- Concurrency: none; the source is single-threaded.

## Findings

| source | as written | input that shows it | evidently intended | confidence | as-written member | corrected member |
|---|---|---|---|---|---|---|
| favicon/favicon.go:78-79 | the entry's width and height are `byte(image.Width)` and `byte(image.Height)`, which keep the pixel count modulo 256 whatever its size | a 300-pixel-wide PNG is stored with width byte 44 and reads back as 44 pixels wide | only dimensions 1..256 are stored, with 256 as 0, and any other dimension is rejected | not executed | IcoLayout.DimensionByteAsWritten (IcoLayout.DimensionAsWrittenWraps) | IcoLayout.EncodeDimension (used by Codec.Pack, which rejects the first image outside 1..256) |
