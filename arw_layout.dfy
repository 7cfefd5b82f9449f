/**
 * The fixed layout both extractors rely on: the offset and the size of the embedded
 * preview JPEG are 32-bit words at two constant positions of the ARW file, and a JPEG
 * stream starts with the start-of-image marker FF D8.
 */
module ArwLayout {
  import opened Bytes

  /** Where the JPEG's offset is stored. */
  const OFFSET_POSITION: nat := 0x21c18
  /** Where the JPEG's size is stored. */
  const LENGTH_POSITION: nat := 0x21c24
  /** One past the last header byte either extractor reads. */
  const HEADER_END: nat := LENGTH_POSITION + 4

  /** The two words read from the header. */
  datatype Header = Header(offset: u32, size: u32)

  /** The header of `buf` when its words are read in byte order `e`. */
  function ReadHeader(e: Endian, buf: seq<byte>): (h: Header)
    requires |buf| >= HEADER_END
    ensures e == LittleEndian ==>
      LeBytes(h.offset) == buf[OFFSET_POSITION..OFFSET_POSITION + 4] &&
      LeBytes(h.size) == buf[LENGTH_POSITION..LENGTH_POSITION + 4]
  {
    LeEncodeDecode(buf[OFFSET_POSITION..OFFSET_POSITION + 4]);
    LeEncodeDecode(buf[LENGTH_POSITION..LENGTH_POSITION + 4]);
    Header(HostU32(e, buf[OFFSET_POSITION..OFFSET_POSITION + 4]),
           HostU32(e, buf[LENGTH_POSITION..LENGTH_POSITION + 4]))
  }

  /** What `is_jpeg_soi` sees at the start of `tail`. */
  datatype Probe =
    | Soi      // both marker bytes present
    | NotSoi   // a byte read differs from the marker
    | PastEnd  // a byte the check reads lies beyond the end of the data

  /**
   * `is_jpeg_soi`, which reads byte 0 and, only when it is 0xFF, byte 1 (the `&&`
   * short-circuits), without checking that either exists.
   */
  function ProbeSoi(tail: seq<byte>): (r: Probe)
    ensures r == Soi <==> |tail| >= 2 && tail[..2] == [0xFF, 0xD8]
    ensures r == PastEnd <==> |tail| == 0 || (|tail| == 1 && tail[0] == 0xFF)
  {
    if |tail| == 0 then PastEnd
    else if tail[0] != 0xFF then NotSoi
    else if |tail| == 1 then PastEnd
    else if tail[1] != 0xD8 then NotSoi
    else Soi
  }

  function Zeros(n: nat): (z: seq<byte>)
    ensures |z| == n
  {
    seq(n, _ => 0)
  }

  /**
   * A file whose header holds `h` (little-endian) and whose bytes after the header are
   * `tail`; every other byte is zero. The inverse of ReadHeader.
   */
  function Image(h: Header, tail: seq<byte>): (buf: seq<byte>)
    ensures |buf| == HEADER_END + |tail|
    ensures ReadHeader(LittleEndian, buf) == h
    ensures buf[HEADER_END..] == tail
  {
    var buf := Zeros(OFFSET_POSITION) + LeBytes(h.offset) + Zeros(8) + LeBytes(h.size) + tail;
    assert buf[OFFSET_POSITION..OFFSET_POSITION + 4] == LeBytes(h.offset);
    assert buf[LENGTH_POSITION..LENGTH_POSITION + 4] == LeBytes(h.size);
    LeDecodeEncode(h.offset);
    LeDecodeEncode(h.size);
    buf
  }
}
