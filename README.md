# arwtojpg in Dafny

arwtojpg copies the preview JPEG out of Sony ARW raw files. It does not parse the file's
TIFF/EXIF structure. It reads two 32-bit words at fixed positions of the file: the JPEG's
offset at 0x21c18 and its size at 0x21c24. It checks that the region lies inside the file
and starts with the JPEG start-of-image marker FF D8. It then writes the region to a file
named after the input with its extension replaced by `jpg`. The repository has two
implementations: an asynchronous Rust program (`src/main.rs`) and a small C program
(`arwtojpg.c`).

This project models both, one module per concern:

- `Bytes` holds bytes, 32-bit words, little- and big-endian decoding and 32-bit wrapping addition.
- `ArwLayout` holds the fixed header positions, reading the header, the SOI probe, and
  `Image`, a builder for files with a given header (the inverse of reading).
- `RustExtract` is the Rust length guard of `mmap_arw` and `extract_jpeg`. Slice indexing
  that would panic is the outcome `IndexPanic`.
- `PageAlign` is the address arithmetic of `madvise_aligned`, with `&` and `!` on 64-bit
  `usize` modelled bit by bit. It proves that the advised range is the tightest
  page-aligned cover of the requested one.
- `RustPath` covers `Path::file_name`, `file_stem` and `extension` and `PathBuf::push`.
  `PathBuf` is a class whose `SetExtension` edits the path in place.
- `RustPipeline` covers the directory filter, the output naming of `write_jpeg` and `process_file`.
- `CNaming` is the C string handling: `strlen` and `strrchr` over `char` arrays,
  `snprintf_safe`, the output name and the `.ARW` filter on `d_name`.
- `CExtract` is the C `extract_jpeg` as written, together with a corrected version. Reading
  outside the mapped file is the outcome `OutsideFile`. A failed `expect` is `Aborted`.
- `Agreement` compares the two programs. It covers which entries each takes, what name
  each writes, and that the Rust extractor and the corrected C extractor select the same bytes.

Some behaviours are modelled exactly as the code has them:
- The Rust guard is `len > 0x21c28`, so Rust rejects a file of exactly 0x21c28 bytes. The
  C program accepts such a file.
- Both programs check the marker at the region's offset in the file, not inside the region.
  A region of size 0 or 1 whose offset is followed by FF D8 is therefore extracted, and the
  written file has 0 or 1 bytes.
- The Rust `is_jpeg_soi` reads its second byte only when the first is FF. It panics when
  the region's offset is the file's length, or is the file's last byte and that byte is FF
  (`OneByteRegionAtEndPanics`, `EmptyRegionAtLastFfPanics`). A one-byte region at the end
  that holds any other byte gets "Missing JPEG SOI marker" (`OneByteRegionAtEndMissesSoi`).
  `Agreement.PanicMatchesOutsideRead` covers files longer than 0x21c28 bytes whose
  offset + size is below 2^32. On those files, Rust panics exactly when the C program reads
  its marker from outside the file.

Neither program walks the TIFF IFD chain or matches other RAW extensions:
- Both programs read the two fixed header positions.
- Both take only names ending in ".ARW" (upper case), in one directory.
- A failed hint ends the Rust task (`unwrap`) or the C process (`expect`).
- The C program aborts on the first bad file.
- The Rust program returns the first failed task's error once it has joined the tasks before it.

The C program reads header words in host byte order. The model takes the byte order as a
parameter, and the comparisons with the Rust program fix it to little-endian.

## Model

| member | source | states |
|---|---|---|
| Bytes.LeDecodeEncode | src/main.rs:80-83 | decoding the little-endian encoding of a word gives the word back |
| Bytes.LeEncodeDecode | src/main.rs:80-83 | encoding the word decoded from four bytes gives the same four bytes |
| Bytes.LeUnique | src/main.rs:80-83 | four bytes encode exactly one word, the one `from_le_bytes` yields |
| Bytes.LeU32 | src/main.rs:81-83 | `u32::from_le_bytes`; LeDecodeEncode, LeEncodeDecode and LeUnique prove it the inverse of the encoding |
| Bytes.HostU32 | arwtojpg.c:52-53 | the word a `memcpy` into a `uint32_t` yields on a host of either byte order; ReadHeader says what it is on a little-endian host |
| Bytes.WrappingAdd32 | arwtojpg.c:55 | the sum of two `uint32_t` is the true sum when it fits and 2^32 less otherwise |
| ArwLayout.ReadHeader | src/main.rs:80-83 | on a little-endian host the offset and size are the words whose encodings are the bytes at 0x21c18 and 0x21c24 |
| ArwLayout.ProbeSoi | src/main.rs:25-27 | the marker is found exactly when the data starts with FF D8; a read past the end happens exactly when the data is empty or is the single byte FF |
| ArwLayout.Image | src/main.rs:22-23 | a file built from a header and trailing bytes has that header at the fixed positions and those bytes after it |
| RustExtract.LongEnough | src/main.rs:59 | the `ensure!` of `mmap_arw`; LocateJpeg rejects exactly the files it fails as too short |
| RustExtract.ExtractJpeg | src/main.rs:79-107 | too large a region is rejected exactly when offset + size exceeds the length; success exactly when the region fits and the file holds FF D8 at its offset, returning the region's bytes; a missing marker exactly when the region fits and a marker byte read differs from FF D8; a panic exactly when the marker read runs past the end |
| RustExtract.LocateJpeg | src/main.rs:56-59 | a file no longer than 0x21c28 bytes is rejected as too short, every other file goes on to extraction |
| RustExtract.LocatedRegion | src/main.rs:79-106 | a success means the header words give an offset and size inside the file, with FF D8 at the offset, and the result is exactly those bytes |
| RustExtract.EmptyRegionAtLastFfPanics | src/main.rs:25-27 | an empty region whose offset is the file's last byte, holding FF, panics although the region lies inside the file |
| RustExtract.OneByteRegionAtEndMissesSoi | src/main.rs:101-104 | a one-byte region at the end of the file holding a byte other than FF is reported as a missing marker |
| RustExtract.OneByteRegionAtEndPanics | src/main.rs:97-104 | a one-byte region at the end of the file holding FF passes the bounds check and then panics |
| PageAlign.AndClearsLowBits | src/main.rs:32 | anding with a mask of the bits at and above a power of two rounds down to a multiple of it |
| PageAlign.AlignDown | src/main.rs:32-35 | `x & !(page_size - 1)`; AlignDownRounds and AlignDownFacts prove it rounds down to a multiple of the page size |
| PageAlign.AlignDownRounds | src/main.rs:32 | `x & !(p - 1)` equals x minus x mod p |
| PageAlign.AlignDownFacts | src/main.rs:32-35 | `x & !(p - 1)` is a multiple of p, within p below x, and zero exactly when x < p |
| PageAlign.AlignedRange | src/main.rs:29-43 | the call fails exactly when the aligned start is null; otherwise start and end are page-aligned, cover the range, and the length grows by less than two pages |
| PageAlign.AlignedRangeIsTightest | src/main.rs:32-37 | no page-aligned range covering the requested one is smaller than the advised one |
| Text.LastIndexOf | arwtojpg.c:60 | absent exactly when the character does not occur; otherwise an index of the character with no occurrence after it |
| RustPath.FileName | src/main.rs:127 | the file name is a suffix of the path and holds no '/' |
| RustPath.Stem | src/main.rs:111 | the stem is a prefix of the name and is non-empty for a non-empty name |
| RustPath.Extension | src/main.rs:150 | `Path::extension`; StemAndExtension and ArwExtension say what it yields |
| RustPath.StemAndExtension | src/main.rs:150 | a name is its stem, a '.', and its extension, which holds no '.'; without an extension the stem is the whole name |
| RustPath.ArwExtension | src/main.rs:150 | the extension is "ARW" exactly when the name ends in ".ARW" with something before it, and the stem is then the name without ".ARW" |
| RustPath.ExtensionReplaced | src/main.rs:111 | a renamed name keeps its stem and takes the new extension |
| RustPath.Join | src/main.rs:110 | `out_dir.join(filename)`; JoinFileName proves the joined name becomes the file name after the directory |
| RustPath.JoinFileName | src/main.rs:110 | after joining a plain name onto a directory, that name is the file name and the directory with its separator is the rest |
| RustPath.PathBuf.constructor | src/main.rs:110 | a new path buffer holds the given path |
| RustPath.PathBuf.Push | src/main.rs:110 | pushing a name appends it after a separator when the path needs one |
| RustPath.PathBuf.SetExtension | src/main.rs:111 | fails and changes nothing exactly when the file name is ".."; otherwise the path becomes its directory, stem and new extension |
| RustPipeline.Accepts | src/main.rs:150-151 | the filter of `process_directory`; AcceptsIff and Agreement.FiltersCompared say which entries pass it |
| RustPipeline.AcceptsIff | src/main.rs:149-151 | an entry is processed exactly when it is a regular file whose name ends in ".ARW" after a non-empty stem |
| RustPipeline.OutputPath | src/main.rs:110-111 | the output is the entry's stem with ".jpg" in the output directory, and that is its file name |
| RustPipeline.JpgPath | src/main.rs:110-111 | setting extension "jpg" on the joined path gives the output directory joined with stem plus ".jpg" |
| RustPipeline.JpgFileName | src/main.rs:110-111 | the output path's file name is the stem plus ".jpg" |
| RustPipeline.ProcessFile | src/main.rs:126-136 | an extraction error is returned unchanged; otherwise the extracted bytes go to the output path |
| RustPipeline.AcceptedOutputName | src/main.rs:110-111 | an accepted entry's output name is the entry name with ".ARW" replaced by ".jpg", with extension "jpg" and the same stem |
| CNaming.CStr | arwtojpg.c:59-66 | a C string is the longest NUL-free prefix of its array |
| CNaming.TruncatedCStr | arwtojpg.c:61-63 | storing NUL inside a C string cuts it at that point |
| CNaming.StrLen | arwtojpg.c:87 | `strlen` returns the length of the C string, and the characters before it are the string |
| CNaming.StrRChr | arwtojpg.c:60 | `strrchr` finds the last occurrence of the character in the C string, or nothing when it is absent |
| CNaming.SnprintfSafe | arwtojpg.c:22-26 | succeeds exactly when the text and its NUL fit; the buffer then holds the text, and otherwise its truncation |
| CNaming.BeforeLastDot | arwtojpg.c:60-63 | the name cut before its last '.', or the whole name when it has none |
| CNaming.JpgName | arwtojpg.c:58-66 | the output name or none when a `snprintf_safe` aborts; OutputName is proved equal to it, JpgNameShape and ArwJpgName say what it is |
| CNaming.OutputName | arwtojpg.c:58-66 | the name built in the two buffers is the name before its last '.' plus ".jpg", or none when either text does not fit in PATH_MAX |
| CNaming.JpgNameShape | arwtojpg.c:58-66 | a name that fits gets a prefix of itself ending before its last '.', followed by ".jpg" |
| CNaming.IsArwName | arwtojpg.c:88 | the `.ARW` suffix test; AcceptsEntry proves the `strlen`/`strcmp` code equal to it |
| CNaming.AcceptsEntry | arwtojpg.c:86-90 | an entry is processed exactly when its name has at least four characters and ends in ".ARW" |
| CNaming.ArwJpgName | arwtojpg.c:58-66 | every accepted name is renamed by replacing its final ".ARW" with ".jpg" |
| CExtract.BoundsCheckAsWritten | arwtojpg.c:55 | the bounds check on the wrapped 32-bit sum; BoundsChecksDiffer and WrappedCheckWritesOutside compare it with the full-width check |
| CExtract.BoundsChecksDiffer | arwtojpg.c:55 | the 32-bit bounds check accepts every region the full-width check accepts, and differs from it only when the sum wraps |
| CExtract.ExtractSpec | arwtojpg.c:38-78 | the file is written exactly when the region is inside the file, starts with FF D8 and the name fits, and the written bytes are the region under the derived name; every other outcome (map failure, header read outside, wrapped check failing, marker read outside, missing marker, name too long, write outside) has its exact condition |
| CExtract.Memcpy32 | arwtojpg.c:51-53 | the copied word is the four file bytes read in host byte order |
| CExtract.ExtractJpeg | arwtojpg.c:38-78 | the statements of `extract_jpeg` end as the specification says for every file and name |
| CExtract.LocateFixed | arwtojpg.c:51-56 | the corrected extractor never reads outside the file; it writes exactly when the region is inside the file, starts with FF D8 and the name fits, and aborts with the exact reason otherwise (empty file, short file, region out of bounds, missing marker) |
| CExtract.FixedAgreesOnWrites | arwtojpg.c:51-56 | the program as written and the corrected one write the same bytes under the same name on the same files; wherever the former does not write, the latter aborts |
| CExtract.WrappedCheckWritesOutside | arwtojpg.c:55 | an offset past the header with size 2^32 - 1 passes the wrapped check and writes from outside the file; the corrected version rejects it |
| CExtract.ShortFileReadsHeaderOutside | arwtojpg.c:47-53 | a non-empty file shorter than the header has its header words read from outside it; the corrected version aborts |
| CExtract.SoiCheckReadsPastEnd | arwtojpg.c:34-36 | a one-byte region at the end of the file holding FF makes the marker check read past the end; the corrected version reports a missing marker |
| Agreement.FiltersCompared | src/main.rs:150-151 | Rust takes an entry exactly when it is a regular file that the C filter takes and its name is not ".ARW" |
| Agreement.StemsAgree | arwtojpg.c:60-63 | cutting at the last '.' and Rust's file stem agree exactly when the name is not ".." and does not have its last '.' first |
| Agreement.NamesAgree | src/main.rs:110-111 | for every entry both programs process, both name the output the same |
| Agreement.LocatorsAgree | src/main.rs:97-106 | past the Rust length guard, on a little-endian host, Rust succeeds exactly when the corrected C extractor writes, and with the same bytes |
| Agreement.PanicMatchesOutsideRead | src/main.rs:101-104 | without wrap-around, Rust panics in the marker check exactly when the C program reads its marker from outside the file |

## Left out

- The directory loops (`read_dir`/`readdir`), `main`, argument handling and creating the output directory are left out. The model works on one entry at a time.
- The Rust program's concurrency is left out: tokio tasks, the semaphore of 256 permits, and joining the tasks. So is the rule that the first failed task ends the program.
- Opening, mapping, writing and closing files are left out. The model receives the mapped contents as a sequence and returns what would be written. The C `openat`, `write` and `fstat` calls, and the Rust `File::create` and `write_all`, are taken to succeed.
- The `posix_fadvise` and `madvise` hints are taken to succeed in both programs. A Rust hint that failed would panic in `unwrap`.
- `RustPipeline.ProcessFile` does not model the `madvise_aligned` call on the JPEG region. That call happens before the bounds check. Rust computes its `ptr.add(jpeg_offset)` even for an offset beyond the mapping.
- `RustExtract.ExtractJpeg`: takes `usize` to have 64 bits, so `jpeg_offset + jpeg_sz` of two `u32` values never overflows. On a 32-bit target the sum could overflow: a panic in a debug build, a wrap like the C one in a release build.
- `RustExtract.ExtractJpeg`: the outcome `ExceedsFileSize` stands for two behaviours of the program. The WILLNEED advice on the JPEG region runs before the bounds check. If the aligned region covers addresses that no mapping holds, `madvise` fails with ENOMEM and the `unwrap` panics. If other mappings follow the file's, the call succeeds and the bounds check reports "JPEG data exceeds file size". Which one happens depends on the process's address-space layout, which the model does not track.
- `PageAlign.AlignedRange`: requires that `addr + length + page_size - 1` does not overflow 64 bits. For ranges inside a mapping it does not. The overflowing case is not modelled. The page size is a parameter, required to be a power of two.
- `RustPath.FileName`, `RustPath.Stem`, `RustPath.PathBuf.Push` and `RustPath.PathBuf.SetExtension`: only paths whose last component is a plain directory-entry name are modelled. Not modelled are `..` components inside the path, trailing slashes and root-only paths, and platforms other than Unix.
- `Entry.metadata().unwrap()`, `file_name().unwrap()` and `to_string_lossy` are left out. Names are sequences of characters, with no UTF-8 decoding.
- Printing the processed file names is left out.
- The C comparisons against `(char)0xff` and `(char)0xd8` are modelled as comparisons of byte values. That is what they amount to for either signedness of `char`.
- `CExtract.ExtractSpec`: a read outside the mapped file is an outcome of its own. The model does not say what such a read returns. Within the file's last page it reads zeros. Beyond that page it faults if no mapping holds the address, and returns that mapping's memory if another mapping follows the file's. Which one happens depends on the process's address-space layout.

## Findings

| source | as written | input that shows it | evidently intended | confidence | as-written member | corrected member |
|---|---|---|---|---|---|---|
| arwtojpg.c:55 | `jpeg_offset + jpeg_sz` is a sum of two `uint32_t` and wraps modulo 2^32 before the comparison | a file of 0x21c2a bytes with offset 0x21c28, size 0xFFFFFFFF and FF D8 at the offset | compare the full sum, so the region lies inside the file | not executed | CExtract.WrappedCheckWritesOutside | CExtract.LocateFixed |
| arwtojpg.c:51-53 | the header words are copied from 0x21c18 and 0x21c24 without checking the file's length | any file of 1 to 0x21c27 bytes | reject files shorter than the header, as the Rust guard does | not executed | CExtract.ShortFileReadsHeaderOutside | CExtract.LocateFixed |
| arwtojpg.c:34-36 | `is_jpeg_soi` reads the second marker byte when the file's last byte is FF and sits at the region's offset | a file of 0x21c29 bytes with offset 0x21c28, size 1 and FF as its last byte | treat a marker that would lie past the end of the file as missing | not executed | CExtract.SoiCheckReadsPastEnd | CExtract.LocateFixed |
