/**
 * What the packer guarantees about the file it writes, what the reader and
 * the extractor recover from it, and how the extractor's writes land in the
 * file system.
 */
module CodecProofs {
  import opened Wrappers
  import opened Binary
  import opened Io
  import opened IcoLayout
  import opened Text
  import opened Codec
  import Bitmap

  /*** Packer ***/

  /** A slice that lies inside the middle part of a three-part concatenation. */
  lemma SliceOfMiddle<T>(a: seq<T>, b: seq<T>, c: seq<T>, lo: nat, hi: nat)
    requires |a| <= lo <= hi <= |a| + |b|
    ensures (a + b + c)[lo..hi] == b[lo - |a|..hi - |a|]
  {
    assert forall k | lo <= k < hi :: (a + b + c)[k] == b[k - |a|];
  }

  /** The packed file, split into its header, directory and payload areas. */
  lemma PackedParts(files: seq<ImageFile>)
    requires Packable(files)
    ensures |EncodeIconDir(IconDir(1, |files|))| == 6
    ensures |DirectoryBytes(files, |files|)| == 16 * |files|
    ensures PackedBytes(files)
         == EncodeIconDir(IconDir(1, |files|)) + DirectoryBytes(files, |files|) + Payloads(files)
  {
  }

  /** Entry `i` occupies bytes [16i, 16i + 16) of the encoded directory. */
  lemma {:induction false} EncodeEntriesAt(es: seq<IconDirEntry>, i: nat)
    requires forall j | 0 <= j < |es| :: es[j].Valid()
    requires i < |es|
    ensures EncodeEntries(es)[16 * i..16 * i + 16] == EncodeEntry(es[i])
    decreases |es|
  {
    var init := es[..|es| - 1];
    if i < |es| - 1 {
      EncodeEntriesAt(init, i);
      assert init[i] == es[i];
    }
  }

  /** Payload `i` occupies bytes [TotalSize(first i), TotalSize(first i + 1)) of the payload area. */
  lemma {:induction false} PayloadsAt(files: seq<ImageFile>, i: nat)
    requires i < |files|
    ensures TotalSize(files[..i]) + |files[i].contents| <= |Payloads(files)|
    ensures Payloads(files)[TotalSize(files[..i])..TotalSize(files[..i]) + |files[i].contents|]
         == files[i].contents
    decreases |files|
  {
    var init := files[..|files| - 1];
    if i < |files| - 1 {
      PayloadsAt(init, i);
      assert init[..i] == files[..i];
      assert init[i] == files[i];
    } else {
      assert init == files[..i];
    }
  }

  /**
   * The packed file is the 6-byte header {reserved 0, type 1, count N}, the N
   * directory entries, then the payloads: 6 + 16N + the sum of the sizes
   * bytes in all.
   */
  lemma PackedHeader(files: seq<ImageFile>)
    requires Packable(files)
    ensures |PackedBytes(files)| == 6 + 16 * |files| + TotalSize(files)
    ensures PackedBytes(files)[0] == 0 && PackedBytes(files)[1] == 0
    ensures DecodeIconDir(PackedBytes(files), 0) == IconDir(1, |files|)
  {
    var out := PackedBytes(files);
    IconDirRoundTrip(IconDir(1, |files|), out, 0);
  }

  /**
   * Entry `i` of the packed directory stores the image's dimensions (256 as
   * 0), zero colour count, planes and bit depth, the payload size, and an
   * offset right after the previous payload; the first payload follows the
   * directory.
   */
  lemma PlannedEntryFields(files: seq<ImageFile>, i: nat)
    requires Packable(files) && i < |files|
    ensures var e := PlannedEntries(files, |files|)[i];
      && DecodeDimension(e.width) == files[i].width
      && DecodeDimension(e.height) == files[i].height
      && e.colorCount == 0 && e.colorPlanes == 0 && e.bitsPerPixel == 0
      && e.size == |files[i].contents|
      && (i == 0 ==> e.offset == 6 + 16 * |files|)
      && (0 < i ==> e.offset == PlannedEntries(files, |files|)[i - 1].offset
                               + PlannedEntries(files, |files|)[i - 1].size)
  {
    if 0 < i {
      TotalSizeStep(files, i - 1);
    }
  }

  /** The 16 bytes after the header and `i` earlier entries hold entry `i`. */
  lemma PackedEntryAt(files: seq<ImageFile>, i: nat)
    requires Packable(files) && i < |files|
    ensures 6 + 16 * i + 16 <= |PackedBytes(files)|
    ensures PackedBytes(files)[6 + 16 * i..6 + 16 * i + 16]
         == EncodeEntry(PlannedEntries(files, |files|)[i])
  {
    var es := PlannedEntries(files, |files|);
    PackedParts(files);
    EncodeEntriesAt(es, i);
    SliceOfMiddle(EncodeIconDir(IconDir(1, |files|)), DirectoryBytes(files, |files|), Payloads(files),
                  6 + 16 * i, 6 + 16 * i + 16);
  }

  /** A piece found at `start` in the second part of a concatenation is found `|a|` further on in the whole. */
  lemma SliceOfSecond<T>(whole: seq<T>, a: seq<T>, b: seq<T>, start: nat, piece: seq<T>)
    requires whole == a + b
    requires start + |piece| <= |b| && b[start..start + |piece|] == piece
    ensures |a| + start + |piece| <= |whole| && whole[|a| + start..|a| + start + |piece|] == piece
  {
    assert forall k | 0 <= k < |piece| :: piece[k] == b[start + k];
  }

  /** Entry `i` of the packed directory points at the running offset and holds the payload size. */
  lemma PlannedEntryPlace(files: seq<ImageFile>, i: nat)
    requires Packable(files) && i < |files|
    ensures PlannedEntries(files, |files|)[i].offset == 6 + 16 * |files| + TotalSize(files[..i])
    ensures PlannedEntries(files, |files|)[i].size == |files[i].contents|
  {
  }

  /** Every entry addresses exactly its own payload, inside the file. */
  lemma PackedPayloadAt(files: seq<ImageFile>, i: nat)
    requires Packable(files) && i < |files|
    ensures var e := PlannedEntries(files, |files|)[i];
      && e.offset + e.size <= |PackedBytes(files)|
      && PackedBytes(files)[e.offset..e.offset + e.size] == files[i].contents
  {
    var head := EncodeIconDir(IconDir(1, |files|)) + DirectoryBytes(files, |files|);
    PackedParts(files);
    PayloadsAt(files, i);
    PlannedEntryPlace(files, i);
    SliceOfSecond(PackedBytes(files), head, Payloads(files), TotalSize(files[..i]), files[i].contents);
  }

  /** Two images: 16x16 in 800 bytes and 32x32 in 2000 bytes. */
  lemma TwoImageExample(a: seq<byte>, b: seq<byte>)
    requires |a| == 800 && |b| == 2000
    ensures var files := [ImageFile(16, 16, a), ImageFile(32, 32, b)];
      && Packable(files)
      && PlannedEntries(files, 2) == [IconDirEntry(16, 16, 0, 0, 0, 800, 38),
                                      IconDirEntry(32, 32, 0, 0, 0, 2000, 838)]
      && |PackedBytes(files)| == 2838
  {
    var files := [ImageFile(16, 16, a), ImageFile(32, 32, b)];
    assert files[..0] == [] && files[..1] == [files[0]] && files[..2] == files;
    assert files[..1][..0] == [];
    assert TotalSize(files[..1]) == 800;
    assert TotalSize(files) == 2800;
    PackedHeader(files);
  }

  /*** Reader ***/

  /** The header reads as {type, count} whenever six bytes are there; the type is not checked. */
  lemma ParseIconDirReadsHeader(src: seq<byte>)
    ensures ParseIconDir(src, 0).Ok? <==> 6 <= |src|
    ensures ParseIconDir(src, 0).Ok? ==> ParseIconDir(src, 0).value == DecodeIconDir(src, 0)
    ensures ParseIconDir(src, 0).Err? ==> (ParseIconDir(src, 0).error == EOF <==> src == [])
  {
  }

  /** The 16 bytes at entry `i`'s place in a packed file decode to the planned entry. */
  lemma PackedEntryDecodes(files: seq<ImageFile>, i: nat)
    requires Packable(files) && i < |files|
    ensures DecodeEntry(PackedBytes(files), 6 + 16 * i) == PlannedEntries(files, |files|)[i]
  {
    PackedEntryAt(files, i);
    EntryRoundTrip(PlannedEntries(files, |files|)[i], PackedBytes(files), 6 + 16 * i);
  }

  /** Reading a packed file gives back the header and directory the packer wrote. */
  lemma ParsePacked(files: seq<ImageFile>)
    requires Packable(files)
    ensures Parse(PackedBytes(files)) == Ok(Directory(IconDir(1, |files|), PlannedEntries(files, |files|)))
  {
    var out := PackedBytes(files);
    var n := |files|;
    var es := PlannedEntries(files, n);
    PackedHeader(files);
    assert ParseIconDir(out, 0) == Ok(IconDir(1, n));
    ParseEntriesReadsDirectory(out, 6, n);
    var parsed := ParseEntries(out, 6, n);
    assert parsed.Ok?;
    forall i | 0 <= i < n
      ensures parsed.value[i] == es[i]
    {
      PackedEntryDecodes(files, i);
    }
    assert parsed.value == es;
  }

  /*** Extractor ***/

  /** When every step succeeds, the run writes what each step wrote, in order. */
  lemma {:induction false} RunStepsSucceed(steps: seq<Result<FileWrite, IoError>>)
    requires forall i | 0 <= i < |steps| :: steps[i].Ok?
    ensures RunSteps(steps).err == None && |RunSteps(steps).writes| == |steps|
    ensures forall i | 0 <= i < |steps| :: RunSteps(steps).writes[i] == steps[i].value
    decreases |steps|
  {
    if steps != [] {
      var n := |steps|;
      var init := steps[..n - 1];
      RunStepsSucceed(init);
      assert RunSteps(steps) == Export(RunSteps(init).writes + [steps[n - 1].value], None);
    }
  }

  /** `<p><w>x<h><ext>` with digit strings `w` and `h` determines `w` and `h`. */
  lemma NumeralPairParts(p: string, w1: string, h1: string, w2: string, h2: string, ext: string)
    requires AllDigits(w1) && AllDigits(w2)
    requires p + w1 + "x" + h1 + ext == p + w2 + "x" + h2 + ext
    ensures w1 == w2 && h1 == h2
  {
    var n1, n2 := p + w1 + "x" + h1 + ext, p + w2 + "x" + h2 + ext;
    var t1, t2 := w1 + ['x'] + (h1 + ext), w2 + ['x'] + (h2 + ext);
    assert n1 == p + t1;
    assert n2 == p + t2;
    assert t1 == n1[|p|..] == n2[|p|..] == t2;
    SplitAtSeparator(w1, h1 + ext, w2, h2 + ext, 'x');
    assert h1 == (h1 + ext)[..|h1 + ext| - |ext|] == h2;
  }

  /** Two entries get the same output name exactly when their stored width and height agree. */
  lemma ExportNameInjective(nameRoot: string, e1: IconDirEntry, e2: IconDirEntry, format: Format)
    ensures ExportName(nameRoot, e1, format) == ExportName(nameRoot, e2, format)
        <==> e1.width == e2.width && e1.height == e2.height
  {
    if ExportName(nameRoot, e1, format) == ExportName(nameRoot, e2, format) {
      NumeralPairParts(nameRoot + "_", Decimal(e1.width as int), Decimal(e1.height as int),
                       Decimal(e2.width as int), Decimal(e2.height as int),
                       if format == PNG then ".png" else ".bmp");
      DecimalInjective(e1.width as int, e2.width as int);
      DecimalInjective(e1.height as int, e2.height as int);
    }
  }

  /** A path no write touches keeps what it held. */
  lemma {:induction false} ApplyWritesUntouched(fs: map<string, seq<byte>>, writes: seq<FileWrite>, path: string)
    requires forall j | 0 <= j < |writes| :: writes[j].path != path
    ensures path in ApplyWrites(fs, writes) <==> path in fs
    ensures path in fs ==> ApplyWrites(fs, writes)[path] == fs[path]
    decreases |writes|
  {
    if writes != [] {
      ApplyWritesUntouched(fs, writes[..|writes| - 1], path);
    }
  }

  /** A file holds what the last write to its path put there. */
  lemma {:induction false} LastWriteWins(fs: map<string, seq<byte>>, writes: seq<FileWrite>, k: nat)
    requires k < |writes|
    requires forall j | k < j < |writes| :: writes[j].path != writes[k].path
    ensures writes[k].path in ApplyWrites(fs, writes)
    ensures ApplyWrites(fs, writes)[writes[k].path] == writes[k].data
    decreases |writes|
  {
    if k < |writes| - 1 {
      var init := writes[..|writes| - 1];
      LastWriteWins(fs, init, k);
    }
  }

  /** Writes named after entries of different dimensions go to different paths. */
  lemma PathsDiffer(writes: seq<FileWrite>, entries: seq<IconDirEntry>, nameRoot: string, format: Format, i: nat)
    requires |writes| <= |entries| && i < |writes|
    requires forall j | 0 <= j < |writes| :: writes[j].path == ExportName(nameRoot, entries[j], format)
    requires forall j | i < j < |entries| ::
      entries[j].width != entries[i].width || entries[j].height != entries[i].height
    ensures forall j | i < j < |writes| :: writes[j].path != writes[i].path
  {
    forall j | i < j < |writes|
      ensures writes[j].path != writes[i].path
    {
      ExportNameInjective(nameRoot, entries[j], entries[i], format);
    }
  }

  /**
   * After an extraction that ran to the end, the file named after entry
   * `i`'s dimensions holds entry `i`'s output unless a later entry has the
   * same width and height, in which case the later one overwrote it.
   */
  lemma ExportedFileContents(src: seq<byte>, entries: seq<IconDirEntry>, nameRoot: string, format: Format,
                             unwritable: set<string>, fs: map<string, seq<byte>>, i: nat)
    requires ExportAll(src, entries, nameRoot, format, unwritable).err.None?
    requires i < |entries|
    requires forall j | i < j < |entries| ::
      entries[j].width != entries[i].width || entries[j].height != entries[i].height
    ensures var x := ExportAll(src, entries, nameRoot, format, unwritable);
      && ExportEntry(src, entries[i], nameRoot, format, unwritable) == Ok(x.writes[i])
      && x.writes[i].path == ExportName(nameRoot, entries[i], format)
      && x.writes[i].path in ApplyWrites(fs, x.writes)
      && ApplyWrites(fs, x.writes)[x.writes[i].path] == x.writes[i].data
  {
    var x := ExportAll(src, entries, nameRoot, format, unwritable);
    var writes := x.writes;
    assert forall j | 0 <= j < |writes| :: writes[j].path == ExportName(nameRoot, entries[j], format);
    PathsDiffer(writes, entries, nameRoot, format, i);
    LastWriteWins(fs, writes, i);
  }

  /** What the extractor writes for image `i` of a packed file, in either format. */
  function Unpacked(files: seq<ImageFile>, nameRoot: string, format: Format, i: nat): FileWrite
    requires Packable(files) && i < |files|
  {
    var e := PlannedEntries(files, |files|)[i];
    FileWrite(ExportName(nameRoot, e, format),
              if format == PNG then files[i].contents
              else Bitmap.AppendBitmapFileHeader(e, files[i].contents))
  }

  /** An entry whose bytes lie inside the file exports them, under its name, unless the path is refused. */
  lemma ExportEntryOfPayload(src: seq<byte>, e: IconDirEntry, payload: seq<byte>, nameRoot: string,
                             format: Format, unwritable: set<string>)
    requires e.offset + e.size <= |src| && src[e.offset..e.offset + e.size] == payload
    requires ExportName(nameRoot, e, format) !in unwritable
    ensures ExportEntry(src, e, nameRoot, format, unwritable)
         == Ok(FileWrite(ExportName(nameRoot, e, format),
                         if format == PNG then payload else Bitmap.AppendBitmapFileHeader(e, payload)))
  {
    assert ReadAt(src, e.offset, e.size) == Ok(payload);
  }

  /** The extractor reads back exactly payload `i` of a packed file. */
  lemma ExportPackedEntry(files: seq<ImageFile>, nameRoot: string, format: Format,
                          unwritable: set<string>, i: nat)
    requires Packable(files) && i < |files|
    requires Unpacked(files, nameRoot, format, i).path !in unwritable
    ensures ExportEntry(PackedBytes(files), PlannedEntries(files, |files|)[i], nameRoot, format, unwritable)
         == Ok(Unpacked(files, nameRoot, format, i))
  {
    PackedPayloadAt(files, i);
    ExportEntryOfPayload(PackedBytes(files), PlannedEntries(files, |files|)[i], files[i].contents,
                         nameRoot, format, unwritable);
  }

  /** The name and contents of the file written for image `i` of a packed file. */
  lemma UnpackedFile(files: seq<ImageFile>, nameRoot: string, format: Format, i: nat)
    requires Packable(files) && i < |files|
    ensures Unpacked(files, nameRoot, format, i).path
         == nameRoot + "_" + Decimal(files[i].width % 256) + "x" + Decimal(files[i].height % 256)
            + (if format == PNG then ".png" else ".bmp")
    ensures format == PNG ==> Unpacked(files, nameRoot, format, i).data == files[i].contents
    ensures format == BMP ==>
      && |Unpacked(files, nameRoot, format, i).data| == Bitmap.FILE_HEADER_SIZE + |files[i].contents|
      && Unpacked(files, nameRoot, format, i).data[Bitmap.FILE_HEADER_SIZE..] == files[i].contents
  {
    var e := PlannedEntries(files, |files|)[i];
    assert e.width as int == files[i].width % 256 && e.height as int == files[i].height % 256;
  }

  /**
   * Packing N images and extracting the result writes N files, image `i`'s
   * under a name built from its dimensions: in PNG mode its exact bytes, in
   * BMP mode those bytes behind a bitmap file header.
   */
  lemma PackThenUnpack(files: seq<ImageFile>, nameRoot: string, format: Format, unwritable: set<string>)
    requires Packable(files)
    requires forall i | 0 <= i < |files| :: Unpacked(files, nameRoot, format, i).path !in unwritable
    ensures Parse(PackedBytes(files)).Ok?
    ensures var x := ExportAll(PackedBytes(files), Parse(PackedBytes(files)).value.entries,
                               nameRoot, format, unwritable);
      && x.err == None && |x.writes| == |files|
      && forall i | 0 <= i < |files| ::
           && x.writes[i].path == nameRoot + "_" + Decimal(files[i].width % 256) + "x"
                                  + Decimal(files[i].height % 256)
                                  + (if format == PNG then ".png" else ".bmp")
           && (format == PNG ==> x.writes[i].data == files[i].contents)
           && (format == BMP ==>
                 && |x.writes[i].data| == Bitmap.FILE_HEADER_SIZE + |files[i].contents|
                 && x.writes[i].data[Bitmap.FILE_HEADER_SIZE..] == files[i].contents)
  {
    var es := PlannedEntries(files, |files|);
    ParsePacked(files);
    var steps := ExportSteps(PackedBytes(files), es, nameRoot, format, unwritable);
    forall i | 0 <= i < |files|
      ensures steps[i] == Ok(Unpacked(files, nameRoot, format, i))
    {
      ExportPackedEntry(files, nameRoot, format, unwritable, i);
    }
    RunStepsSucceed(steps);
    forall i | 0 <= i < |files| {
      UnpackedFile(files, nameRoot, format, i);
    }
  }
}
