/**
 * The Rust extractor and the C extractor side by side: which entries each takes, what it
 * names the output, and which bytes it writes.
 */
module Agreement {
  import opened Bytes
  import opened Common
  import opened Text
  import opened ArwLayout
  import opened RustPath
  import RustExtract
  import RustPipeline
  import CNaming
  import CExtract

  /**
   * The C filter takes every name of at least four characters ending in ".ARW"; the Rust
   * filter takes the same names except ".ARW" itself, which has no extension, and only
   * when the entry is a regular file.
   */
  lemma FiltersCompared(fileName: seq<char>, fileType: RustPipeline.FileType)
    ensures RustPipeline.Accepts(fileName, fileType) <==>
      fileType == RustPipeline.RegularFile && CNaming.IsArwName(fileName) && fileName != ".ARW"
  {
    RustPipeline.AcceptsIff(fileName, fileType);
    if CNaming.IsArwName(fileName) && |fileName| == 4 {
      assert fileName == fileName[|fileName| - 4..];
    }
  }

  /**
   * Cutting a name at its last '.' (C) and taking its stem (Rust) agree exactly when the
   * name is not ".." and its last '.' is not its first character.
   */
  lemma StemsAgree(fileName: seq<char>)
    ensures CNaming.BeforeLastDot(fileName) == Stem(fileName) <==>
      fileName != ".." && LastIndexOf(fileName, '.') != Some(0)
  {
    if fileName == ".." {
      assert LastIndexOf(fileName, '.') == Some(1) by {
        LastIndexOfUnique(fileName, '.', 1);
      }
    }
  }

  /** For every entry both programs process, both write the JPEG under the same file name. */
  lemma NamesAgree(outDir: seq<char>, fileName: seq<char>, fileType: RustPipeline.FileType)
    requires PlainName(fileName) && RustPipeline.Accepts(fileName, fileType)
    requires |fileName| < CNaming.PATH_MAX
    ensures CNaming.IsArwName(fileName)
    ensures CNaming.JpgName(fileName) == Some(Stem(fileName) + ".jpg")
    ensures FileName(Join(outDir, Stem(fileName) + ".jpg")) == CNaming.JpgName(fileName).value
  {
    FiltersCompared(fileName, fileType);
    RustPipeline.AcceptedOutputName(outDir, fileName, fileType);
    CNaming.ArwJpgName(fileName);
    RustPipeline.JpgFileName(outDir, fileName);
  }

  /**
   * On a little-endian host, for files past the Rust length guard, the Rust extractor
   * succeeds exactly when the corrected C extractor writes, and with the same bytes.
   */
  lemma LocatorsAgree(buf: seq<byte>, fileName: seq<char>)
    requires CNaming.NUL !in fileName && CNaming.JpgName(fileName).Some?
    requires RustExtract.LongEnough(buf)
    ensures RustExtract.LocateJpeg(buf).Ok? <==> CExtract.LocateFixed(LittleEndian, buf, fileName).Written?
    ensures RustExtract.LocateJpeg(buf).Ok? ==>
      RustExtract.LocateJpeg(buf).value == CExtract.LocateFixed(LittleEndian, buf, fileName).data
  {
    var h := ReadHeader(LittleEndian, buf);
    if h.offset + h.size <= |buf| && h.offset + 2 <= |buf| {
      assert buf[h.offset..][..2] == [buf[h.offset], buf[h.offset + 1]];
    }
  }

  /**
   * Where the region's sum does not wrap, the Rust extractor panics in `is_jpeg_soi`
   * exactly when the C extractor as written reads its marker byte from outside the file.
   */
  lemma PanicMatchesOutsideRead(buf: seq<byte>, fileName: seq<char>)
    requires CNaming.NUL !in fileName
    requires RustExtract.LongEnough(buf)
    requires ReadHeader(LittleEndian, buf).offset + ReadHeader(LittleEndian, buf).size < U32_LIMIT
    ensures RustExtract.LocateJpeg(buf) == Err(RustExtract.IndexPanic) <==>
      CExtract.ExtractSpec(LittleEndian, buf, fileName) == CExtract.OutsideFile(CExtract.SoiRead)
  {
  }
}
