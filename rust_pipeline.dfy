/**
 * One directory entry through the Rust extractor: the filter of `process_directory` and
 * `process_file` with the output naming of `write_jpeg`.
 */
module RustPipeline {
  import opened Bytes
  import opened Common
  import opened Text
  import opened RustPath
  import opened RustExtract

  /** The type `DirEntry::metadata` reports for the entry itself (symbolic links are not followed). */
  datatype FileType = RegularFile | Directory | Symlink | OtherType

  /** The filter at the top of the loop in `process_directory`. */
  predicate Accepts(fileName: seq<char>, fileType: FileType)
  {
    Extension(fileName) == Some("ARW") && fileType == RegularFile
  }

  /** An entry is processed exactly when it is a regular file whose name ends in ".ARW" after a non-empty stem. */
  lemma AcceptsIff(fileName: seq<char>, fileType: FileType)
    ensures Accepts(fileName, fileType) <==>
      fileType == RegularFile && |fileName| > 4 && EndsWith(fileName, ".ARW")
  {
    ArwExtension(fileName);
  }

  /**
   * The naming in `write_jpeg`: `out_dir.join(filename)` followed by `set_extension("jpg")`
   * on the resulting `PathBuf`. The output is the entry's name in `outDir` with its
   * extension, if it has one, replaced by "jpg".
   */
  method OutputPath(outDir: seq<char>, fileName: seq<char>) returns (path: seq<char>)
    requires PlainName(fileName) && fileName != ".."
    ensures path == Join(outDir, Stem(fileName) + ".jpg")
    ensures FileName(path) == Stem(fileName) + ".jpg"
  {
    var outputFile := new PathBuf(outDir);
    outputFile.Push(fileName);
    JoinFileName(outDir, fileName);
    var _ := outputFile.SetExtension("jpg");
    path := outputFile.inner;
    JpgPath(outDir, fileName);
    JpgFileName(outDir, fileName);
  }

  /** The path `set_extension("jpg")` makes of `outDir.join(fileName)`. */
  lemma JpgPath(outDir: seq<char>, fileName: seq<char>)
    requires PlainName(fileName) && fileName != ".."
    ensures WithExtension(Join(outDir, fileName), "jpg") == Join(outDir, Stem(fileName) + ".jpg")
  {
    JoinFileName(outDir, fileName);
    var path := Join(outDir, fileName);
    assert WithExtension(path, "jpg") == outDir + Separator(outDir) + Stem(fileName) + ("." + "jpg");
    DotJpg();
  }

  /** The output path's file name is the stem followed by ".jpg". */
  lemma JpgFileName(outDir: seq<char>, fileName: seq<char>)
    requires PlainName(fileName)
    ensures FileName(Join(outDir, Stem(fileName) + ".jpg")) == Stem(fileName) + ".jpg"
  {
    var newName := Stem(fileName) + ".jpg";
    assert '/' !in newName;
    JoinFileName(outDir, newName);
  }

  /** A proof step kept apart from JpgPath: settled in JpgPath's own context, it runs out of resource. */
  lemma DotJpg()
    ensures "." + "jpg" == ".jpg"
  {
  }

  /** A file `process_file` writes: where, and which bytes. */
  datatype Output = Output(path: seq<char>, data: seq<byte>)

  /**
   * `process_file` for the entry named `fileName` whose mapped contents are `buf`, writing
   * into `outDir`: locate the JPEG, and only then name the output. Opening, mapping and
   * writing the files are not modelled.
   */
  method ProcessFile(outDir: seq<char>, fileName: seq<char>, buf: seq<byte>) returns (r: Result<Output, Error>)
    requires PlainName(fileName) && fileName != ".."
    ensures LocateJpeg(buf).Err? ==> r == Err(LocateJpeg(buf).error)
    ensures LocateJpeg(buf).Ok? ==>
      r == Ok(Output(Join(outDir, Stem(fileName) + ".jpg"), LocateJpeg(buf).value))
  {
    var located := LocateJpeg(buf);
    if located.Err? {
      return Err(located.error);
    }
    var path := OutputPath(outDir, fileName);
    r := Ok(Output(path, located.value));
  }

  /**
   * For an entry the filter accepts, the output is named after the entry with ".ARW"
   * replaced by ".jpg", and that name has extension "jpg" and the entry's stem.
   */
  lemma AcceptedOutputName(outDir: seq<char>, fileName: seq<char>, fileType: FileType)
    requires PlainName(fileName) && Accepts(fileName, fileType)
    ensures Stem(fileName) + ".jpg" == fileName[..|fileName| - 4] + ".jpg"
    ensures Extension(Stem(fileName) + ".jpg") == Some("jpg") && Stem(Stem(fileName) + ".jpg") == Stem(fileName)
  {
    ArwExtension(fileName);
    assert fileName[|fileName| - 4] == '.';
    ExtensionReplaced(fileName, "jpg");
    assert Stem(fileName) + "." + "jpg" == Stem(fileName) + ".jpg";
  }
}
