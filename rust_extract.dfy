/**
 * The Rust extractor's locator: the length guard of `mmap_arw` and `extract_jpeg`, which
 * decodes the two little-endian header words, checks that the region fits in the file
 * and that it starts with the SOI marker, and returns the region.
 */
module RustExtract {
  import opened Bytes
  import opened Common
  import opened ArwLayout

  /** Why a file is not extracted. */
  datatype Error =
    | FileTooShort     // the `ensure!` of `mmap_arw`
    | ExceedsFileSize  // "JPEG data exceeds file size"
    | MissingSoi       // "Missing JPEG SOI marker"
    | IndexPanic       // `is_jpeg_soi` indexes past the end of the slice it is given

  /** The guard of `mmap_arw`: the mapping must be longer than the last header byte read. */
  predicate LongEnough(buf: seq<byte>)
  {
    |buf| > LENGTH_POSITION + 4
  }

  /**
   * `extract_jpeg`. Its slice indexing at the header positions would panic on a shorter
   * buffer; its one caller has already checked LongEnough. Offsets are `usize` values of
   * 64 bits, so `jpeg_offset + jpeg_sz` (two `u32`s) never overflows.
   */
  function ExtractJpeg(buf: seq<byte>): (r: Result<seq<byte>, Error>)
    requires |buf| >= HEADER_END
    ensures var h := ReadHeader(LittleEndian, buf);
      && (r == Err(ExceedsFileSize) <==> h.offset + h.size > |buf|)
      && (r.Ok? <==> h.offset + h.size <= |buf| && h.offset + 2 <= |buf|
                     && buf[h.offset] == 0xFF && buf[h.offset + 1] == 0xD8)
      && (r.Ok? ==> r.value == buf[h.offset..h.offset + h.size] && |r.value| == h.size)
      && (r == Err(MissingSoi) <==>
            h.offset + h.size <= |buf| && h.offset < |buf|
            && (buf[h.offset] != 0xFF || (h.offset + 1 < |buf| && buf[h.offset + 1] != 0xD8)))
      && (r == Err(IndexPanic) <==>
            h.offset + h.size <= |buf| && (h.offset == |buf| || (h.offset + 1 == |buf| && buf[h.offset] == 0xFF)))
  {
    var h := ReadHeader(LittleEndian, buf);
    if h.offset + h.size > |buf| then Err(ExceedsFileSize)
    else
      match ProbeSoi(buf[h.offset..])
      case PastEnd => Err(IndexPanic)
      case NotSoi => Err(MissingSoi)
      case Soi => Ok(buf[h.offset..h.offset + h.size])
  }

  /** `mmap_arw` followed by `extract_jpeg`, as `process_file` runs them on one mapped file. */
  function LocateJpeg(buf: seq<byte>): (r: Result<seq<byte>, Error>)
    ensures !LongEnough(buf) <==> r == Err(FileTooShort)
    ensures LongEnough(buf) ==> r == ExtractJpeg(buf)
  {
    if !LongEnough(buf) then Err(FileTooShort) else ExtractJpeg(buf)
  }

  /**
   * What a successful extraction means: the header bytes at 0x21c18 and 0x21c24 are the
   * little-endian encodings of an offset and a size, the result is the `size` bytes from
   * `offset` on, inside the file, and the file holds FF D8 at `offset`.
   */
  lemma LocatedRegion(buf: seq<byte>, offset: nat, size: nat)
    requires LocateJpeg(buf).Ok?
    requires offset < U32_LIMIT && LeBytes(offset) == buf[OFFSET_POSITION..OFFSET_POSITION + 4]
    requires size < U32_LIMIT && LeBytes(size) == buf[LENGTH_POSITION..LENGTH_POSITION + 4]
    ensures offset + size <= |buf| && offset + 2 <= |buf|
    ensures buf[offset] == 0xFF && buf[offset + 1] == 0xD8
    ensures LocateJpeg(buf).value == buf[offset..offset + size]
  {
    var h := ReadHeader(LittleEndian, buf);
    LeUnique(offset, buf[OFFSET_POSITION..OFFSET_POSITION + 4]);
    LeUnique(h.offset, buf[OFFSET_POSITION..OFFSET_POSITION + 4]);
    LeUnique(size, buf[LENGTH_POSITION..LENGTH_POSITION + 4]);
    LeUnique(h.size, buf[LENGTH_POSITION..LENGTH_POSITION + 4]);
  }

  /**
   * A region of one byte at the very end of the file that holds 0xFF passes the bounds
   * check, and `is_jpeg_soi` then indexes one past the end of the slice: the task panics
   * instead of reporting a missing marker.
   */
  lemma OneByteRegionAtEndPanics()
    ensures LocateJpeg(Image(Header(HEADER_END, 1), [0xFF])) == Err(IndexPanic)
  {
  }

  /**
   * An empty region whose offset is the file's last byte passes the bounds check; that byte
   * is FF, so `is_jpeg_soi` indexes one past the end of the slice.
   */
  lemma EmptyRegionAtLastFfPanics()
    ensures LocateJpeg(Image(Header(HEADER_END, 0), [0xFF])) == Err(IndexPanic)
  {
  }

  /**
   * A one-byte region at the end of the file whose byte is not FF: the `&&` stops after the
   * first comparison, so the marker is reported missing and nothing past the end is read.
   */
  lemma OneByteRegionAtEndMissesSoi()
    ensures LocateJpeg(Image(Header(HEADER_END, 1), [0x00])) == Err(MissingSoi)
  {
  }
}
