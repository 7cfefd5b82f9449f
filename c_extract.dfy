/**
 * The C extractor's `extract_jpeg`: copy the two header words out of the mapped file in
 * host byte order, check the region against the file size in 32-bit arithmetic, check the
 * SOI marker, name the output and write the region. Every `expect` that fails aborts the
 * program. The code reads memory outside the mapped file on some inputs; the model makes
 * those reads an outcome of their own.
 */
module CExtract {
  import opened Bytes
  import opened Common
  import opened ArwLayout
  import CNaming

  /** The `expect` that aborted the program. */
  datatype Abort =
    | MapFailed          // `mmap` of an empty file fails
    | FileTooShort       // only in the corrected version: the header lies beyond the end of the file
    | BoundsCheckFailed  // `jpeg_offset + jpeg_sz <= file_size`
    | MissingSoi         // `is_jpeg_soi(arw_buf + jpeg_offset)`
    | NameTooLong        // one of the two `snprintf_safe` calls

  /** Which access of the mapped file lies outside it. */
  datatype Access = HeaderRead | SoiRead | JpegWrite

  /** How `extract_jpeg` ends for one file. */
  datatype Status =
    | Written(name: seq<char>, data: seq<byte>)  // `data` written to the file `name` in the output directory
    | Aborted(reason: Abort)
    | OutsideFile(access: Access)                // the code reads outside the mapped file: undefined behaviour

  /** `jpeg_offset + jpeg_sz <= file_size` as written: the sum of two `uint32_t` is reduced modulo 2^32. */
  predicate BoundsCheckAsWritten(h: Header, fileSize: nat)
  {
    WrappingAdd32(h.offset, h.size) <= fileSize
  }

  /** The check the code evidently intends: the region lies inside the file. */
  predicate BoundsCheck(h: Header, fileSize: nat)
  {
    h.offset + h.size <= fileSize
  }

  /** The checks disagree only when the sum wraps, and then only in the direction of letting a region through. */
  lemma BoundsChecksDiffer(h: Header, fileSize: nat)
    ensures BoundsCheck(h, fileSize) ==> BoundsCheckAsWritten(h, fileSize)
    ensures BoundsCheckAsWritten(h, fileSize) != BoundsCheck(h, fileSize) ==> h.offset + h.size >= U32_LIMIT
  {
  }

  /** `extract_jpeg` on the mapped contents `buf` of the entry named `fileName`, on a host of byte order `host`. */
  function ExtractSpec(host: Endian, buf: seq<byte>, fileName: seq<char>): (st: Status)
    requires CNaming.NUL !in fileName
    ensures st.Written? <==>
      && |buf| >= HEADER_END
      && var h := ReadHeader(host, buf);
      && h.offset + h.size <= |buf| && h.offset + 2 <= |buf|
      && buf[h.offset] == 0xFF && buf[h.offset + 1] == 0xD8
      && CNaming.JpgName(fileName).Some?
    ensures st.Written? ==>
      && |buf| >= HEADER_END
      && var h := ReadHeader(host, buf);
      && st.data == buf[h.offset..h.offset + h.size] && |st.data| == h.size
      && CNaming.JpgName(fileName) == Some(st.name)
    ensures |buf| == 0 <==> st == Aborted(MapFailed)
    ensures 0 < |buf| < HEADER_END <==> st == OutsideFile(HeaderRead)
    ensures st == Aborted(BoundsCheckFailed) <==>
      |buf| >= HEADER_END && !BoundsCheckAsWritten(ReadHeader(host, buf), |buf|)
    ensures st == OutsideFile(SoiRead) <==>
      && |buf| >= HEADER_END
      && var h := ReadHeader(host, buf);
      && BoundsCheckAsWritten(h, |buf|)
      && (h.offset >= |buf| || (h.offset + 1 == |buf| && buf[h.offset] == 0xFF))
    ensures st == Aborted(MissingSoi) <==>
      && |buf| >= HEADER_END
      && var h := ReadHeader(host, buf);
      && BoundsCheckAsWritten(h, |buf|) && h.offset < |buf|
      && (buf[h.offset] != 0xFF || (h.offset + 1 < |buf| && buf[h.offset + 1] != 0xD8))
    ensures st == Aborted(NameTooLong) <==>
      && |buf| >= HEADER_END
      && var h := ReadHeader(host, buf);
      && BoundsCheckAsWritten(h, |buf|) && h.offset + 2 <= |buf|
      && buf[h.offset] == 0xFF && buf[h.offset + 1] == 0xD8
      && CNaming.JpgName(fileName).None?
    ensures st == OutsideFile(JpegWrite) <==>
      && |buf| >= HEADER_END
      && var h := ReadHeader(host, buf);
      && BoundsCheckAsWritten(h, |buf|) && !BoundsCheck(h, |buf|) && h.offset + 2 <= |buf|
      && buf[h.offset] == 0xFF && buf[h.offset + 1] == 0xD8
      && CNaming.JpgName(fileName).Some?
  {
    if |buf| == 0 then Aborted(MapFailed)
    else if |buf| < HEADER_END then OutsideFile(HeaderRead)
    else
      var h := ReadHeader(host, buf);
      BoundsChecksDiffer(h, |buf|);
      if !BoundsCheckAsWritten(h, |buf|) then Aborted(BoundsCheckFailed)
      else if h.offset >= |buf| then OutsideFile(SoiRead)
      else
        assert h.offset + 2 <= |buf| ==> buf[h.offset..][..2] == [buf[h.offset], buf[h.offset + 1]];
        match ProbeSoi(buf[h.offset..])
        case PastEnd => OutsideFile(SoiRead)
        case NotSoi => Aborted(MissingSoi)
        case Soi =>
          match CNaming.JpgName(fileName)
          case None => Aborted(NameTooLong)
          case Some(name) =>
            if h.offset + h.size > |buf| then OutsideFile(JpegWrite)
            else Written(name, buf[h.offset..h.offset + h.size])
  }

  /** `memcpy(&word, arw_buf + pos, sizeof(uint32_t))`: the word's four bytes become those of the file. */
  method Memcpy32(host: Endian, buf: seq<byte>, pos: nat) returns (word: u32)
    requires pos + 4 <= |buf|
    ensures word == HostU32(host, buf[pos..pos + 4])
  {
    var storage := new byte[4];
    storage[0], storage[1], storage[2], storage[3] := buf[pos], buf[pos + 1], buf[pos + 2], buf[pos + 3];
    assert storage[..] == buf[pos..pos + 4];
    word := HostU32(host, storage[..]);
  }

  /** `extract_jpeg`, statement by statement; the file hints, `open`, `write` and `close` are not modelled. */
  method ExtractJpeg(host: Endian, arwBuf: seq<byte>, fileName: seq<char>) returns (st: Status)
    requires CNaming.NUL !in fileName
    ensures st == ExtractSpec(host, arwBuf, fileName)
  {
    var fileSize := |arwBuf|;
    if fileSize == 0 {
      return Aborted(MapFailed);
    }
    if fileSize < HEADER_END {
      // the `memcpy`s read the header positions although the file ends before them
      return OutsideFile(HeaderRead);
    }
    var jpegOffset := Memcpy32(host, arwBuf, OFFSET_POSITION);
    var jpegSize := Memcpy32(host, arwBuf, LENGTH_POSITION);
    if WrappingAdd32(jpegOffset, jpegSize) > fileSize {
      return Aborted(BoundsCheckFailed);
    }
    // `is_jpeg_soi(arw_buf + jpeg_offset)`
    if jpegOffset >= fileSize {
      return OutsideFile(SoiRead);
    }
    if arwBuf[jpegOffset] != 0xFF {
      return Aborted(MissingSoi);
    }
    if jpegOffset + 1 >= fileSize {
      return OutsideFile(SoiRead);
    }
    if arwBuf[jpegOffset + 1] != 0xD8 {
      return Aborted(MissingSoi);
    }
    assert arwBuf[jpegOffset..][..2] == [0xFF, 0xD8];
    var outputFile := CNaming.OutputName(fileName);
    if outputFile.None? {
      return Aborted(NameTooLong);
    }
    // `write(out_jpeg_fd, arw_buf + jpeg_offset, jpeg_sz)`
    if jpegOffset + jpegSize > fileSize {
      return OutsideFile(JpegWrite);
    }
    st := Written(outputFile.value, arwBuf[jpegOffset..jpegOffset + jpegSize]);
  }

  /**
   * `extract_jpeg` with the three reads outside the file ruled out: it rejects a file
   * shorter than the header, adds the offset and the size without wrapping, and treats a
   * marker that would lie past the end of the file as missing.
   */
  function LocateFixed(host: Endian, buf: seq<byte>, fileName: seq<char>): (st: Status)
    requires CNaming.NUL !in fileName
    ensures !st.OutsideFile?
    ensures st.Written? <==>
      && |buf| >= HEADER_END
      && var h := ReadHeader(host, buf);
      && h.offset + h.size <= |buf| && h.offset + 2 <= |buf|
      && buf[h.offset] == 0xFF && buf[h.offset + 1] == 0xD8
      && CNaming.JpgName(fileName).Some?
    ensures st.Written? ==>
      && |buf| >= HEADER_END
      && var h := ReadHeader(host, buf);
      && st.data == buf[h.offset..h.offset + h.size] && |st.data| == h.size
      && CNaming.JpgName(fileName) == Some(st.name)
    ensures |buf| == 0 <==> st == Aborted(MapFailed)
    ensures 0 < |buf| < HEADER_END <==> st == Aborted(FileTooShort)
    ensures st == Aborted(BoundsCheckFailed) <==>
      |buf| >= HEADER_END && !BoundsCheck(ReadHeader(host, buf), |buf|)
    ensures st == Aborted(MissingSoi) <==>
      && |buf| >= HEADER_END
      && var h := ReadHeader(host, buf);
      && BoundsCheck(h, |buf|)
      && !(h.offset + 2 <= |buf| && buf[h.offset] == 0xFF && buf[h.offset + 1] == 0xD8)
  {
    if |buf| == 0 then Aborted(MapFailed)
    else if |buf| < HEADER_END then Aborted(FileTooShort)
    else
      var h := ReadHeader(host, buf);
      assert h.offset + 2 <= |buf| ==> buf[h.offset..][..2] == [buf[h.offset], buf[h.offset + 1]];
      if !BoundsCheck(h, |buf|) then Aborted(BoundsCheckFailed)
      else if ProbeSoi(buf[h.offset..]) != Soi then Aborted(MissingSoi)
      else
        match CNaming.JpgName(fileName)
        case None => Aborted(NameTooLong)
        case Some(name) => Written(name, buf[h.offset..h.offset + h.size])
  }

  /**
   * The program as written and the corrected one write the same bytes to the same name
   * for the same files; wherever the program as written reads outside the file, the
   * corrected one aborts.
   */
  lemma FixedAgreesOnWrites(host: Endian, buf: seq<byte>, fileName: seq<char>)
    requires CNaming.NUL !in fileName
    ensures ExtractSpec(host, buf, fileName).Written? <==> LocateFixed(host, buf, fileName).Written?
    ensures ExtractSpec(host, buf, fileName).Written? ==> ExtractSpec(host, buf, fileName) == LocateFixed(host, buf, fileName)
    ensures !ExtractSpec(host, buf, fileName).Written? ==> LocateFixed(host, buf, fileName).Aborted?
  {
    if |buf| >= HEADER_END {
      BoundsChecksDiffer(ReadHeader(host, buf), |buf|);
    }
  }

  /**
   * The wrapped bounds check lets through an offset just past the header and a size of
   * 2^32 - 1: their sum wraps to one less than the offset. The marker is there, so the
   * program passes `write` a region of 2^32 - 1 bytes that starts inside a file of 0x21c2a
   * bytes and runs far beyond its end.
   */
  lemma WrappedCheckWritesOutside()
    ensures var buf := Image(Header(HEADER_END, U32_LIMIT - 1), [0xFF, 0xD8]);
      && BoundsCheckAsWritten(ReadHeader(LittleEndian, buf), |buf|)
      && !BoundsCheck(ReadHeader(LittleEndian, buf), |buf|)
      && ExtractSpec(LittleEndian, buf, "DSC00001.ARW") == OutsideFile(JpegWrite)
      && LocateFixed(LittleEndian, buf, "DSC00001.ARW") == Aborted(BoundsCheckFailed)
  {
    var buf := Image(Header(HEADER_END, U32_LIMIT - 1), [0xFF, 0xD8]);
    assert buf[HEADER_END..][..2] == [0xFF, 0xD8];
    CNaming.ArwJpgName("DSC00001.ARW");
  }

  /** Nothing checks the file's length before the header words are copied out of it. */
  lemma ShortFileReadsHeaderOutside(host: Endian, buf: seq<byte>, fileName: seq<char>)
    requires CNaming.NUL !in fileName
    requires 0 < |buf| < HEADER_END
    ensures ExtractSpec(host, buf, fileName) == OutsideFile(HeaderRead)
    ensures LocateFixed(host, buf, fileName) == Aborted(FileTooShort)
  {
  }

  /**
   * A one-byte region at the very end of the file that holds 0xFF passes the bounds
   * check, and `is_jpeg_soi` then reads the byte after the end of the file.
   */
  lemma SoiCheckReadsPastEnd()
    ensures var buf := Image(Header(HEADER_END, 1), [0xFF]);
      && ExtractSpec(LittleEndian, buf, "DSC00001.ARW") == OutsideFile(SoiRead)
      && LocateFixed(LittleEndian, buf, "DSC00001.ARW") == Aborted(MissingSoi)
  {
    var buf := Image(Header(HEADER_END, 1), [0xFF]);
    assert buf[HEADER_END..] == [0xFF];
  }
}
