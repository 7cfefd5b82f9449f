/**
 * The C extractor's handling of names, over NUL-terminated character arrays: the ".ARW"
 * filter of `process_directory` and the output name `extract_jpeg` builds with
 * `snprintf_safe`, `strrchr` and an in-place truncation.
 */
module CNaming {
  import opened Common
  import opened Text

  /** `PATH_MAX`, the size of the `basename` and `output_file` buffers. */
  const PATH_MAX: nat := 4096
  const NUL: char := '\0'

  /** The C string a character buffer holds: everything before its first NUL. */
  function CStr(s: seq<char>): (r: seq<char>)
    ensures NUL !in r && r <= s
    ensures |r| < |s| ==> s[|r|] == NUL
  {
    if s == [] || s[0] == NUL then [] else [s[0]] + CStr(s[1..])
  }

  /** A NUL-free prefix of `s` that ends at the end of `s` or at a NUL is the C string of `s`. */
  lemma CStrUnique(s: seq<char>, t: seq<char>)
    requires NUL !in t && t <= s && (|t| == |s| || s[|t|] == NUL)
    ensures CStr(s) == t
  {
  }

  /** Writing a NUL inside the C string of `s` cuts it at that position (`*dot = '\0'`). */
  lemma TruncatedCStr(s: seq<char>, d: nat)
    requires d < |CStr(s)|
    ensures CStr(s[d := NUL]) == CStr(s)[..d]
  {
    CStrUnique(s[d := NUL], CStr(s)[..d]);
  }

  /** `strlen`. */
  method StrLen(s: array<char>) returns (n: nat)
    requires NUL in s[..]
    ensures n == |CStr(s[..])| && n < s.Length && s[..n] == CStr(s[..])
  {
    ghost var str := CStr(s[..]);
    n := 0;
    while s[n] != NUL
      invariant n <= |str| && s[..n] == str[..n]
      decreases |str| - n
    {
      assert s[..n + 1] == s[..n] + [s[n]];
      n := n + 1;
    }
  }

  /**
   * `strrchr(s, c)`: the position of the last `c` in the C string held by `s`, scanning
   * up to the terminating NUL.
   */
  method StrRChr(s: array<char>, c: char) returns (found: Option<nat>)
    requires NUL in s[..] && c != NUL
    ensures found == LastIndexOf(CStr(s[..]), c)
  {
    ghost var str := CStr(s[..]);
    var i := 0;
    found := None;
    while s[i] != NUL
      invariant i <= |str| && s[..i] == str[..i]
      invariant found == LastIndexOf(s[..i], c)
      decreases |str| - i
    {
      if s[i] == c {
        found := Some(i);
      }
      assert s[..i + 1][..i] == s[..i];
      i := i + 1;
    }
    assert str == s[..i];
  }

  /**
   * `snprintf_safe(dst, sizeof(dst), "%s", text)`: `snprintf` writes as much of `text` as
   * fits before a NUL and returns the length it needed; the macro's `expect` demands that
   * the length is non-negative and strictly below the buffer size. `ok` is false exactly
   * when that `expect` aborts the program.
   */
  method SnprintfSafe(dst: array<char>, text: seq<char>) returns (ok: bool)
    requires NUL !in text && dst.Length > 0
    modifies dst
    ensures ok <==> |text| < dst.Length
    ensures ok ==> CStr(dst[..]) == text
    ensures !ok ==> CStr(dst[..]) == text[..dst.Length - 1]
  {
    var needed := |text|;
    var n := if needed < dst.Length then needed else dst.Length - 1;
    forall i | 0 <= i < n {
      dst[i] := text[i];
    }
    dst[n] := NUL;
    assert dst[..][..n] == text[..n];
    CStrUnique(dst[..], text[..n]);
    assert needed < dst.Length ==> text[..n] == text;
    ok := needed >= 0 && needed < dst.Length;
  }

  /** The name with everything from its last '.' on removed; the whole name when it has no '.'. */
  function BeforeLastDot(name: seq<char>): (stem: seq<char>)
    ensures stem <= name
    ensures '.' !in name ==> stem == name
    ensures '.' in name ==> |stem| < |name| && name[|stem|] == '.' && '.' !in name[|stem| + 1..]
  {
    match LastIndexOf(name, '.')
    case None => name
    case Some(i) => name[..i]
  }

  /**
   * The output file name `extract_jpeg` derives from the entry's name, or None when one of
   * its two `snprintf_safe` calls aborts the program because the text does not fit in
   * `PATH_MAX` characters and a NUL.
   */
  function JpgName(fileName: seq<char>): Option<seq<char>>
  {
    if |fileName| >= PATH_MAX then None
    else
      var stem := BeforeLastDot(fileName);
      if |stem| + 4 >= PATH_MAX then None else Some(stem + ".jpg")
  }

  /**
   * The naming code of `extract_jpeg`: copy the name into `basename`, cut it at its last
   * '.', and format that with ".jpg" appended into `output_file`.
   */
  method OutputName(fileName: seq<char>) returns (name: Option<seq<char>>)
    requires NUL !in fileName
    ensures name == JpgName(fileName)
  {
    var basename := new char[PATH_MAX];
    var ok := SnprintfSafe(basename, fileName);
    if !ok {
      return None;
    }
    var dot := StrRChr(basename, '.');
    if dot.Some? {
      TruncatedCStr(basename[..], dot.value);
      basename[dot.value] := NUL;
    }
    assert CStr(basename[..]) == BeforeLastDot(fileName);
    var stemLength := StrLen(basename);
    var stem := basename[..stemLength];
    var outputFile := new char[PATH_MAX];
    ok := SnprintfSafe(outputFile, stem + ".jpg");
    if !ok {
      return None;
    }
    var length := StrLen(outputFile);
    name := Some(outputFile[..length]);
  }

  /**
   * A name that fits gets the name with its last '.' and what follows replaced by
   * ".jpg", or ".jpg" appended when it has no '.'; the part kept is a prefix of the name.
   */
  lemma JpgNameShape(fileName: seq<char>)
    requires |fileName| + 4 < PATH_MAX
    ensures JpgName(fileName).Some?
    ensures var stem := JpgName(fileName).value[..|JpgName(fileName).value| - 4];
      && JpgName(fileName).value == stem + ".jpg" && stem <= fileName
      && ('.' !in fileName ==> stem == fileName)
      && ('.' in fileName ==> fileName[|stem|] == '.' && '.' !in fileName[|stem| + 1..])
  {
    var stem := BeforeLastDot(fileName);
    assert (stem + ".jpg")[..|stem|] == stem;
  }

  /** The filter of `process_directory`: at least four characters, the last four ".ARW". */
  predicate IsArwName(fileName: seq<char>)
  {
    |fileName| >= 4 && fileName[|fileName| - 4..] == ".ARW"
  }

  /** The filter as `process_directory` runs it on `entry->d_name`: `strlen`, then `strcmp` of the last four characters. */
  method AcceptsEntry(dName: array<char>) returns (accept: bool)
    requires NUL in dName[..]
    ensures accept <==> IsArwName(CStr(dName[..]))
  {
    var len := StrLen(dName);
    if len < 4 {
      return false;
    }
    // The C string at `filename + len - 4` is the last four characters: a NUL follows them.
    accept := dName[len - 4..len] == ".ARW";
    assert CStr(dName[..])[len - 4..] == dName[len - 4..len];
  }

  /** Every name the filter accepts is named by replacing its ".ARW" with ".jpg" (names of real entries always fit). */
  lemma ArwJpgName(fileName: seq<char>)
    requires IsArwName(fileName) && |fileName| < PATH_MAX
    ensures JpgName(fileName) == Some(fileName[..|fileName| - 4] + ".jpg")
  {
    var i := |fileName| - 4;
    assert fileName[i] == '.' by {
      assert fileName[i] == fileName[i..][0];
    }
    assert fileName[i + 1..] == "ARW" by {
      assert fileName[i + 1..] == fileName[i..][1..];
    }
    LastIndexOfUnique(fileName, '.', i);
  }
}
