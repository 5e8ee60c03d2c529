/**
 * The ICO codec of package favicon. `Pack` lays a list of images out as one
 * ICO file; `New` reads the header and directory of an ICO file into a
 * `Favicon`; `SaveAsPNGs` and `SaveAsBMPs` write every payload out again as
 * its own file.
 *
 * Files are byte sequences. The file system the extractor writes to is a
 * list of (path, bytes) writes, and the paths it refuses are a parameter.
 */
module Codec {
  import opened Wrappers
  import opened Binary
  import opened Io
  import opened IcoLayout
  import opened Text
  import Bitmap

  /*** Packer ***/

  /** One input of the packer: the pixel size its PNG header declares, and its bytes. */
  datatype ImageFile = ImageFile(width: int, height: int, contents: seq<byte>)

  predicate HasDimensions(f: ImageFile) { IsDimension(f.width) && IsDimension(f.height) }

  datatype PackError = BadDimension(index: nat)

  /** The sum of the payload sizes. */
  function TotalSize(files: seq<ImageFile>): nat
  {
    if files == [] then 0
    else TotalSize(files[..|files| - 1]) + |files[|files| - 1].contents|
  }

  /** The header and directory of an ICO file with `n` images. */
  function HeaderSize(n: nat): nat { 6 + 16 * n }

  /** The image count fits its uint16 field and the whole file is addressable by uint32 offsets. */
  predicate Fits(files: seq<ImageFile>)
  {
    IsU16(|files|) && HeaderSize(|files|) + TotalSize(files) < U32_BOUND
  }

  /** The first `k` images have dimensions the format can store. */
  predicate DimensionsUpTo(files: seq<ImageFile>, k: nat)
    requires k <= |files|
  {
    forall i | 0 <= i < k :: HasDimensions(files[i])
  }

  predicate Packable(files: seq<ImageFile>)
  {
    Fits(files) && DimensionsUpTo(files, |files|)
  }

  /** Where payload `i` goes: after the directory and every earlier payload. */
  function PayloadOffset(files: seq<ImageFile>, i: nat): nat
    requires i <= |files|
  {
    HeaderSize(|files|) + TotalSize(files[..i])
  }

  lemma TotalSizeStep(files: seq<ImageFile>, i: nat)
    requires i < |files|
    ensures TotalSize(files[..i + 1]) == TotalSize(files[..i]) + |files[i].contents|
  {
    assert files[..i + 1][..i] == files[..i];
  }

  lemma {:induction false} TotalSizeMonotone(files: seq<ImageFile>, i: nat)
    requires i <= |files|
    ensures TotalSize(files[..i]) <= TotalSize(files)
    decreases |files|
  {
    if i < |files| {
      var init := files[..|files| - 1];
      assert init[..i] == files[..i];
      TotalSizeMonotone(init, i);
    } else {
      assert files[..i] == files;
    }
  }

  /** Payload `i` lies inside the packed file. */
  lemma PayloadEndBound(files: seq<ImageFile>, i: nat)
    requires i < |files|
    ensures PayloadOffset(files, i) + |files[i].contents| <= HeaderSize(|files|) + TotalSize(files)
  {
    TotalSizeStep(files, i);
    TotalSizeMonotone(files, i + 1);
  }

  /** The directory entry the packer writes for image `i`. */
  function PlannedEntry(files: seq<ImageFile>, i: nat): (e: IconDirEntry)
    requires Fits(files) && i < |files| && HasDimensions(files[i])
    ensures e.Valid()
  {
    PayloadEndBound(files, i);
    IconDirEntry(
      EncodeDimension(files[i].width), EncodeDimension(files[i].height),
      0, 0, 0, |files[i].contents|, PayloadOffset(files, i))
  }

  /** The first `k` entries of the directory the packer writes. */
  function PlannedEntries(files: seq<ImageFile>, k: nat): (es: seq<IconDirEntry>)
    requires Fits(files) && k <= |files| && DimensionsUpTo(files, k)
    ensures |es| == k
  {
    seq(k, i requires 0 <= i < k => PlannedEntry(files, i))
  }

  /** The directory entries, one after the other. */
  function EncodeEntries(es: seq<IconDirEntry>): (r: seq<byte>)
    requires forall i | 0 <= i < |es| :: es[i].Valid()
    ensures |r| == 16 * |es|
  {
    if es == [] then []
    else EncodeEntries(es[..|es| - 1]) + EncodeEntry(es[|es| - 1])
  }

  /** The payloads, one after the other, with no padding. */
  function Payloads(files: seq<ImageFile>): (r: seq<byte>)
    ensures |r| == TotalSize(files)
  {
    if files == [] then []
    else Payloads(files[..|files| - 1]) + files[|files| - 1].contents
  }

  /** The first `k` directory entries as the packer writes them. */
  function DirectoryBytes(files: seq<ImageFile>, k: nat): seq<byte>
    requires Fits(files) && k <= |files| && DimensionsUpTo(files, k)
  {
    EncodeEntries(PlannedEntries(files, k))
  }

  /** One more directory entry: it is the planned entry for image `i`, at the running offset. */
  lemma PlannedEntriesStep(files: seq<ImageFile>, i: nat)
    requires Fits(files) && i < |files| && DimensionsUpTo(files, i + 1)
    ensures PlannedEntry(files, i).offset == PayloadOffset(files, i)
    ensures PayloadOffset(files, i + 1) == PayloadOffset(files, i) + |files[i].contents|
    ensures DirectoryBytes(files, i + 1) == DirectoryBytes(files, i) + EncodeEntry(PlannedEntry(files, i))
  {
    TotalSizeStep(files, i);
    assert PlannedEntries(files, i + 1)[..i] == PlannedEntries(files, i);
  }

  lemma PayloadsStep(files: seq<ImageFile>, i: nat)
    requires i < |files|
    ensures Payloads(files[..i + 1]) == Payloads(files[..i]) + files[i].contents
  {
    assert files[..i + 1][..i] == files[..i];
  }

  /** The ICO file that `Pack` produces: header, directory, payloads. */
  function PackedBytes(files: seq<ImageFile>): (r: seq<byte>)
    requires Packable(files)
    ensures |r| == HeaderSize(|files|) + TotalSize(files)
    ensures r[0] == 0 && r[1] == 0 && GetU16(r, 2) == 1 && GetU16(r, 4) == |files|
  {
    EncodeIconDir(IconDir(1, |files|))
      + DirectoryBytes(files, |files|)
      + Payloads(files)
  }

  /**
   * The directory pass of `Pack`: one entry per image, while a running offset
   * that starts right after the directory steps over each payload. An image
   * whose width or height the one-byte field cannot hold is rejected.
   */
  method WriteEntries(files: seq<ImageFile>) returns (r: Result<seq<byte>, PackError>)
    requires Fits(files)
    ensures r.Ok? <==> DimensionsUpTo(files, |files|)
    ensures r.Ok? ==> r.value == DirectoryBytes(files, |files|)
    ensures r.Err? ==> r.error.index < |files| && !HasDimensions(files[r.error.index])
                       && DimensionsUpTo(files, r.error.index)
  {
    var out := [];
    var offset := HeaderSize(|files|);
    var i := 0;
    while i < |files|
      invariant 0 <= i <= |files|
      invariant DimensionsUpTo(files, i)
      invariant offset == PayloadOffset(files, i)
      invariant out == DirectoryBytes(files, i)
    {
      if !HasDimensions(files[i]) {
        return Err(BadDimension(i));
      }
      var entry := IconDirEntry(
        EncodeDimension(files[i].width), EncodeDimension(files[i].height),
        0, 0, 0, |files[i].contents|, offset);
      PlannedEntriesStep(files, i);
      out := out + EncodeEntry(entry);
      offset := offset + |files[i].contents|;
      i := i + 1;
    }
    r := Ok(out);
  }

  /** The payload pass of `Pack`: every file's bytes, in order, with no padding. */
  method WritePayloads(files: seq<ImageFile>) returns (out: seq<byte>)
    ensures out == Payloads(files)
  {
    out := [];
    var i := 0;
    while i < |files|
      invariant 0 <= i <= |files|
      invariant out == Payloads(files[..i])
    {
      PayloadsStep(files, i);
      out := out + files[i].contents;
      i := i + 1;
    }
    assert files[..i] == files;
  }

  /** Writes the header {0, 1, N}, then the directory, then the payloads. */
  method Pack(files: seq<ImageFile>) returns (r: Result<seq<byte>, PackError>)
    requires Fits(files)
    ensures r.Ok? <==> DimensionsUpTo(files, |files|)
    ensures r.Ok? ==> r.value == PackedBytes(files)
    ensures r.Err? ==> r.error.index < |files| && !HasDimensions(files[r.error.index])
                       && DimensionsUpTo(files, r.error.index)
  {
    var header := EncodeIconDir(IconDir(1, |files|));
    var entries := WriteEntries(files);
    if entries.Err? {
      return Err(entries.error);
    }
    var payloads := WritePayloads(files);
    r := Ok(header + entries.value + payloads);
  }

  /*** Reader ***/

  /** `binary.Read` of the 6-byte header at `at`. */
  function ParseIconDir(src: seq<byte>, at: nat): (r: Result<IconDir, IoError>)
    ensures r.Ok? <==> at + ICON_DIR_SIZE <= |src|
    ensures r.Ok? ==> r.value == DecodeIconDir(src, at)
    ensures r.Err? ==> r.error == (if |src| <= at then EOF else UnexpectedEOF)
  {
    match ReadFull(src, at, ICON_DIR_SIZE)
    case Err(e) => Err(e)
    case Ok(b) => Ok(DecodeIconDir(b, 0))
  }

  /** `count` consecutive `binary.Read`s of a 16-byte entry, starting at `at`; the first failure ends it. */
  function ParseEntries(src: seq<byte>, at: nat, count: nat): (r: Result<seq<IconDirEntry>, IoError>)
    ensures r.Ok? ==> |r.value| == count
    decreases count
  {
    if count == 0 then Ok([])
    else
      match ParseEntries(src, at, count - 1)
      case Err(e) => Err(e)
      case Ok(es) =>
        match ReadFull(src, at + 16 * (count - 1), ENTRY_SIZE)
        case Err(e) => Err(e)
        case Ok(b) => Ok(es + [DecodeEntry(b, 0)])
  }

  datatype Directory = Directory(iconDir: IconDir, entries: seq<IconDirEntry>)

  /**
   * `count` entries can be read at `at` exactly when the source holds
   * 16 * count bytes there, and the i-th entry read is the one stored at
   * at + 16i.
   */
  lemma {:induction false} ParseEntriesReadsDirectory(src: seq<byte>, at: nat, count: nat)
    ensures ParseEntries(src, at, count).Ok? <==> count == 0 || at + 16 * count <= |src|
    ensures ParseEntries(src, at, count).Ok? ==>
      forall i | 0 <= i < count :: ParseEntries(src, at, count).value[i] == DecodeEntry(src, at + 16 * i)
    ensures ParseEntries(src, at, count).Err? ==>
      ParseEntries(src, at, count).error == EOF || ParseEntries(src, at, count).error == UnexpectedEOF
    decreases count
  {
    if count > 0 {
      ParseEntriesReadsDirectory(src, at, count - 1);
      var r := ParseEntries(src, at, count);
      if r.Ok? {
        var b := src[at + 16 * (count - 1)..at + 16 * count];
        DecodeEntryOfCopy(src, at + 16 * (count - 1), b);
      }
    }
  }

  /**
   * What `New` reads from a file: the header, then as many entries as it
   * declares, read one after the other right behind it. The type field is not
   * checked.
   */
  function Parse(src: seq<byte>): (r: Result<Directory, IoError>)
    ensures r.Ok? <==> ICON_DIR_SIZE <= |src| && ICON_DIR_SIZE + 16 * GetU16(src, 4) <= |src|
    ensures r.Ok? ==>
      && r.value.iconDir == DecodeIconDir(src, 0)
      && |r.value.entries| == r.value.iconDir.imageCount
      && forall i | 0 <= i < |r.value.entries| :: r.value.entries[i] == DecodeEntry(src, ICON_DIR_SIZE + 16 * i)
    ensures r.Err? ==> r.error == EOF || r.error == UnexpectedEOF
    ensures |src| < ICON_DIR_SIZE ==> r.Err? && (r.error == EOF <==> src == [])
  {
    match ParseIconDir(src, 0)
    case Err(e) => Err(e)
    case Ok(d) =>
      ParseEntriesReadsDirectory(src, ICON_DIR_SIZE, d.imageCount);
      match ParseEntries(src, ICON_DIR_SIZE, d.imageCount)
      case Err(e) => Err(e)
      case Ok(es) => Ok(Directory(d, es))
  }

  /** Once an entry cannot be read, reading more entries fails with the same error. */
  lemma {:induction false} ParseEntriesStaysFailed(src: seq<byte>, at: nat, k: nat, count: nat)
    requires k <= count && ParseEntries(src, at, k).Err?
    ensures ParseEntries(src, at, count) == ParseEntries(src, at, k)
    decreases count
  {
    if k < count {
      ParseEntriesStaysFailed(src, at, k, count - 1);
    }
  }

  /*** Extractor ***/

  datatype Format = PNG | BMP

  datatype FileWrite = FileWrite(path: string, data: seq<byte>)

  /** The outcome of an extraction: the files written, in order, and the error that stopped it. */
  datatype Export = Export(writes: seq<FileWrite>, err: Option<IoError>)

  /** `<root>_<width>x<height>.png` (or `.bmp`), with the stored width and height bytes. */
  function ExportName(nameRoot: string, e: IconDirEntry, format: Format): (name: string)
    ensures |nameRoot| + 8 <= |name|
    ensures name[..|nameRoot| + 1] == nameRoot + "_"
    ensures name[|name| - 4..] == (if format == PNG then ".png" else ".bmp")
  {
    nameRoot + "_" + Decimal(e.width as int) + "x" + Decimal(e.height as int)
      + (if format == PNG then ".png" else ".bmp")
  }

  /** What one loop iteration of `SaveAsPNGs` or `SaveAsBMPs` writes, or the error that stops it. */
  function ExportEntry(src: seq<byte>, e: IconDirEntry, nameRoot: string, format: Format,
                       unwritable: set<string>): (r: Result<FileWrite, IoError>)
    ensures r.Ok? <==> (e.size == 0 || e.offset < |src|) && ExportName(nameRoot, e, format) !in unwritable
    ensures r.Err? ==>
      r.error == (if e.size != 0 && |src| <= e.offset then EOF else WriteFailed(ExportName(nameRoot, e, format)))
    ensures r.Ok? ==>
      && r.value.path == ExportName(nameRoot, e, format)
      && |r.value.data| == (if format == PNG then 0 else Bitmap.FILE_HEADER_SIZE) + e.size
    ensures r.Ok? && e.offset + e.size <= |src| ==>
      r.value.data[(if format == PNG then 0 else Bitmap.FILE_HEADER_SIZE)..] == src[e.offset..e.offset + e.size]
  {
    match ReadAt(src, e.offset, e.size)
    case Err(err) => Err(err)
    case Ok(payload) =>
      var path := ExportName(nameRoot, e, format);
      var data := if format == PNG then payload else Bitmap.AppendBitmapFileHeader(e, payload);
      if path in unwritable then Err(WriteFailed(path)) else Ok(FileWrite(path, data))
  }

  /** Extraction steps run in order until the first one that fails. */
  function RunSteps(steps: seq<Result<FileWrite, IoError>>): (x: Export)
    ensures |x.writes| <= |steps|
    ensures x.err.None? ==> |x.writes| == |steps|
    decreases |steps|
  {
    if steps == [] then Export([], None)
    else
      var done := RunSteps(steps[..|steps| - 1]);
      if done.err.Some? then done
      else
        match steps[|steps| - 1]
        case Err(e) => Export(done.writes, Some(e))
        case Ok(w) => Export(done.writes + [w], None)
  }

  /** The step for each entry, in directory order. */
  function ExportSteps(src: seq<byte>, entries: seq<IconDirEntry>, nameRoot: string, format: Format,
                       unwritable: set<string>): (steps: seq<Result<FileWrite, IoError>>)
    ensures |steps| == |entries|
  {
    seq(|entries|, i requires 0 <= i < |entries| => ExportEntry(src, entries[i], nameRoot, format, unwritable))
  }

  /** Step `i` wrote `writes[i]`; a stop reports the first failed step. */
  lemma {:induction false} RunStepsInOrder(steps: seq<Result<FileWrite, IoError>>)
    ensures var x := RunSteps(steps);
      && (forall i | 0 <= i < |x.writes| :: steps[i] == Ok(x.writes[i]))
      && (x.err.Some? ==> |x.writes| < |steps| && steps[|x.writes|] == Err(x.err.value))
    decreases |steps|
  {
    if steps != [] {
      var n := |steps|;
      var init := steps[..n - 1];
      RunStepsInOrder(init);
      var done := RunSteps(init);
      var x := RunSteps(steps);
      forall i | 0 <= i < |done.writes|
        ensures steps[i] == Ok(x.writes[i])
      {
        assert init[i] == steps[i];
      }
      if done.err.Some? {
        assert init[|done.writes|] == steps[|done.writes|];
      }
    }
  }

  /**
   * Every entry in order, stopping at the first failed read or write: write
   * `i` is entry `i`'s, and an error is that of the entry after the last one
   * written.
   */
  function ExportAll(src: seq<byte>, entries: seq<IconDirEntry>, nameRoot: string, format: Format,
                     unwritable: set<string>): (x: Export)
    ensures |x.writes| <= |entries|
    ensures x.err.None? ==> |x.writes| == |entries|
    ensures forall i | 0 <= i < |x.writes| ::
      ExportEntry(src, entries[i], nameRoot, format, unwritable) == Ok(x.writes[i])
    ensures x.err.Some? ==>
      && |x.writes| < |entries|
      && ExportEntry(src, entries[|x.writes|], nameRoot, format, unwritable) == Err(x.err.value)
  {
    RunStepsInOrder(ExportSteps(src, entries, nameRoot, format, unwritable));
    RunSteps(ExportSteps(src, entries, nameRoot, format, unwritable))
  }

  /** Once a step has failed, the later steps are not run. */
  lemma {:induction false} RunStepsStopsAtError(steps: seq<Result<FileWrite, IoError>>, k: nat)
    requires k <= |steps| && RunSteps(steps[..k]).err.Some?
    ensures RunSteps(steps) == RunSteps(steps[..k])
    decreases |steps|
  {
    if k < |steps| {
      var init := steps[..|steps| - 1];
      assert init[..k] == steps[..k];
      RunStepsStopsAtError(init, k);
    } else {
      assert steps[..k] == steps;
    }
  }

  /** One more step run after a run without error. */
  lemma RunStepsStep(steps: seq<Result<FileWrite, IoError>>, i: nat)
    requires i < |steps| && RunSteps(steps[..i]).err.None?
    ensures RunSteps(steps[..i + 1])
         == match steps[i]
            case Err(e) => Export(RunSteps(steps[..i]).writes, Some(e))
            case Ok(w) => Export(RunSteps(steps[..i]).writes + [w], None)
  {
    assert steps[..i + 1][..i] == steps[..i];
  }

  /** The file system after a list of writes: a later write to a path replaces an earlier one. */
  function ApplyWrites(fs: map<string, seq<byte>>, writes: seq<FileWrite>): map<string, seq<byte>>
  {
    if writes == [] then fs
    else
      var last := writes[|writes| - 1];
      ApplyWrites(fs, writes[..|writes| - 1])[last.path := last.data]
  }

  /*** The parsed file ***/

  /** An ICO file opened for reading: its bytes, its read cursor, and what has been read of its directory. */
  class Favicon {
    const file: seq<byte>
    var pos: nat
    var iconDir: IconDir
    var entries: seq<IconDirEntry>

    constructor (file: seq<byte>)
      ensures this.file == file && pos == 0
      ensures iconDir == IconDir(0, 0) && entries == []
    {
      this.file := file;
      pos := 0;
      iconDir := IconDir(0, 0);
      entries := [];
    }

    /** A failed `io.ReadFull` still consumes every byte left. */
    function CursorAfterShortRead(at: nat): nat
    {
      if at < |file| then |file| else at
    }

    /** Reads the header at the cursor. */
    method ReadIconDir() returns (err: Option<IoError>)
      modifies this`pos, this`iconDir
      ensures match ParseIconDir(file, old(pos))
        case Ok(d) => err == None && iconDir == d && pos == old(pos) + ICON_DIR_SIZE
        case Err(e) => err == Some(e) && iconDir == old(iconDir) && pos == CursorAfterShortRead(old(pos))
    {
      var r := ReadFull(file, pos, ICON_DIR_SIZE);
      if r.Err? {
        pos := CursorAfterShortRead(pos);
        return Some(r.error);
      }
      iconDir := DecodeIconDir(r.value, 0);
      pos := pos + ICON_DIR_SIZE;
      err := None;
    }

    /**
     * Reads `iconDir.imageCount` entries at the cursor, appending each to
     * `entries`; the first short read stops it, keeping the entries read so far.
     */
    method ReadEntries() returns (err: Option<IoError>)
      modifies this`pos, this`entries
      ensures match ParseEntries(file, old(pos), iconDir.imageCount)
        case Ok(es) =>
          err == None && entries == old(entries) + es
          && pos == old(pos) + 16 * iconDir.imageCount
        case Err(e) =>
          var k := |entries| - |old(entries)|;
          err == Some(e) && |old(entries)| <= |entries| < |old(entries)| + iconDir.imageCount
          && entries[..|old(entries)|] == old(entries)
          && ParseEntries(file, old(pos), k) == Ok(entries[|old(entries)|..])
          && ParseEntries(file, old(pos), k + 1) == Err(e)
          && pos == CursorAfterShortRead(old(pos) + 16 * k)
    {
      var start := pos;
      ghost var before := entries;
      var i := 0;
      while i < iconDir.imageCount
        invariant 0 <= i <= iconDir.imageCount
        invariant pos == start + 16 * i
        invariant ParseEntries(file, start, i).Ok?
        invariant entries == before + ParseEntries(file, start, i).value
        invariant |entries| == |before| + i
      {
        var r := ReadFull(file, pos, ENTRY_SIZE);
        if r.Err? {
          ParseEntriesStaysFailed(file, start, i + 1, iconDir.imageCount);
          assert entries[..|before|] == before;
          assert entries[|before|..] == ParseEntries(file, start, i).value;
          pos := CursorAfterShortRead(pos);
          return Some(r.error);
        }
        entries := entries + [DecodeEntry(r.value, 0)];
        pos := pos + ENTRY_SIZE;
        i := i + 1;
      }
      err := None;
    }

    /**
     * Writes each payload, unchanged, to `<nameRoot>_<W>x<H>.png`, in
     * directory order; the first failed read or write ends the extraction.
     */
    method SaveAsPNGs(nameRoot: string, unwritable: set<string>) returns (writes: seq<FileWrite>, err: Option<IoError>)
      ensures Export(writes, err) == ExportAll(file, entries, nameRoot, PNG, unwritable)
    {
      ghost var steps := ExportSteps(file, entries, nameRoot, PNG, unwritable);
      writes := [];
      var i := 0;
      while i < |entries|
        invariant 0 <= i <= |entries|
        invariant RunSteps(steps[..i]) == Export(writes, None)
      {
        var entry := entries[i];
        RunStepsStep(steps, i);
        var bytes := ReadAt(file, entry.offset, entry.size);
        if bytes.Err? {
          RunStepsStopsAtError(steps, i + 1);
          return writes, Some(bytes.error);
        }
        var exportName := ExportName(nameRoot, entry, PNG);
        if exportName in unwritable {
          RunStepsStopsAtError(steps, i + 1);
          return writes, Some(WriteFailed(exportName));
        }
        writes := writes + [FileWrite(exportName, bytes.value)];
        i := i + 1;
      }
      assert steps[..i] == steps;
      err := None;
    }

    /**
     * Writes each payload behind a synthesized BITMAPFILEHEADER to
     * `<nameRoot>_<W>x<H>.bmp`, in directory order; the first failed read or
     * write ends the extraction.
     */
    method SaveAsBMPs(nameRoot: string, unwritable: set<string>) returns (writes: seq<FileWrite>, err: Option<IoError>)
      ensures Export(writes, err) == ExportAll(file, entries, nameRoot, BMP, unwritable)
    {
      ghost var steps := ExportSteps(file, entries, nameRoot, BMP, unwritable);
      writes := [];
      var i := 0;
      while i < |entries|
        invariant 0 <= i <= |entries|
        invariant RunSteps(steps[..i]) == Export(writes, None)
      {
        var entry := entries[i];
        RunStepsStep(steps, i);
        var bytes := ReadAt(file, entry.offset, entry.size);
        if bytes.Err? {
          RunStepsStopsAtError(steps, i + 1);
          return writes, Some(bytes.error);
        }
        var bmpBytes := Bitmap.AppendBitmapFileHeader(entry, bytes.value);
        var exportName := ExportName(nameRoot, entry, BMP);
        if exportName in unwritable {
          RunStepsStopsAtError(steps, i + 1);
          return writes, Some(WriteFailed(exportName));
        }
        writes := writes + [FileWrite(exportName, bmpBytes)];
        i := i + 1;
      }
      assert steps[..i] == steps;
      err := None;
    }
  }

  /** Opens an ICO file: reads its header, then its directory. */
  method New(file: seq<byte>) returns (favicon: Favicon?, err: Option<IoError>)
    ensures match Parse(file)
      case Ok(dir) =>
        err == None && favicon != null && favicon.file == file
        && favicon.iconDir == dir.iconDir && favicon.entries == dir.entries
      case Err(e) => err == Some(e) && favicon == null
  {
    var f := new Favicon(file);
    err := f.ReadIconDir();
    if err.Some? {
      return null, err;
    }
    err := f.ReadEntries();
    if err.Some? {
      return null, err;
    }
    favicon := f;
  }
}
