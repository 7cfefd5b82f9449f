/**
 * The part of Rust's `Path`/`PathBuf` behaviour the extractor relies on to name its
 * output: `join` of a directory entry's name, `extension`, `file_stem` and
 * `set_extension`, for paths whose last component is a plain name.
 */
module RustPath {
  import opened Common
  import opened Text

  /** A directory entry's name as `read_dir` yields it: not empty, no '/', not ".". */
  predicate PlainName(name: seq<char>)
  {
    name != [] && '/' !in name && name != "."
  }

  /** `Path::file_name` of a path whose last component is a plain name: the text after the last '/'. */
  function FileName(path: seq<char>): (name: seq<char>)
    ensures '/' !in name && |name| <= |path| && path[|path| - |name|..] == name
  {
    match LastIndexOf(path, '/')
    case None => path
    case Some(i) => path[i + 1..]
  }

  /** Everything before the file name: the directory part, with its trailing '/'. */
  function DirPart(path: seq<char>): seq<char>
  {
    path[..|path| - |FileName(path)|]
  }

  /**
   * `Path::file_stem` of a file name. The name is split at its last '.', except that ".."
   * and a name whose only '.' is its first character have no extension.
   */
  function Stem(name: seq<char>): (stem: seq<char>)
    ensures stem <= name && (name != [] ==> stem != [])
  {
    if name == ".." then name
    else match LastIndexOf(name, '.')
      case None => name
      case Some(i) => if i == 0 then name else name[..i]
  }

  /** `Path::extension` of a file name: the text after the dot Stem splits at, if it splits. */
  function Extension(name: seq<char>): Option<seq<char>>
  {
    if name == ".." then None
    else match LastIndexOf(name, '.')
      case None => None
      case Some(i) => if i == 0 then None else Some(name[i + 1..])
  }

  /**
   * A name is its stem followed, if there is an extension, by '.' and the extension; the
   * extension holds no '.', and a stem with an extension after it is never empty.
   */
  lemma StemAndExtension(name: seq<char>)
    ensures Extension(name).None? ==> Stem(name) == name
    ensures Extension(name).Some? ==>
      && name == Stem(name) + "." + Extension(name).value
      && '.' !in Extension(name).value && Stem(name) != []
  {
    match LastIndexOf(name, '.')
    case None =>
    case Some(i) =>
      if name != ".." && i != 0 {
        assert name == name[..i] + "." + name[i + 1..];
      }
  }

  /** A file has extension "ARW" exactly when its name ends in ".ARW" and has more before it. */
  lemma ArwExtension(name: seq<char>)
    ensures Extension(name) == Some("ARW") <==> |name| > 4 && EndsWith(name, ".ARW")
    ensures Extension(name) == Some("ARW") ==> Stem(name) == name[..|name| - 4]
  {
    if |name| > 4 && EndsWith(name, ".ARW") {
      var i := |name| - 4;
      assert name[i + 1..] == "ARW" by {
        assert name[i + 1..] == name[|name| - 4..][1..];
      }
      assert name[i] == '.' by {
        assert name[i] == name[|name| - 4..][0];
      }
      LastIndexOfUnique(name, '.', i);
    }
    if Extension(name) == Some("ARW") {
      StemAndExtension(name);
      assert name[|name| - 4..] == "." + "ARW";
    }
  }

  /**
   * Giving a name the extension `ext` (non-empty, without '.') keeps its stem and makes
   * `ext` its extension; names that `set_extension` can rename have a non-empty stem.
   */
  lemma ExtensionReplaced(name: seq<char>, ext: seq<char>)
    requires PlainName(name) && name != ".."
    requires ext != [] && '.' !in ext
    ensures Stem(Stem(name) + "." + ext) == Stem(name)
    ensures Extension(Stem(name) + "." + ext) == Some(ext)
  {
    var stem := Stem(name);
    StemAndExtension(name);
    assert stem != [];
    var renamed := stem + "." + ext;
    assert renamed[|stem| + 1..] == ext;
    LastIndexOfUnique(renamed, '.', |stem|);
    assert renamed[..|stem|] == stem;
  }

  /** What `PathBuf::push` puts between `dir` and a relative name: a '/' unless `dir` is empty or ends in one. */
  function Separator(dir: seq<char>): seq<char>
  {
    if dir == [] || dir[|dir| - 1] == '/' then [] else "/"
  }

  /** `PathBuf::push` of a relative plain name onto `dir`. */
  function Join(dir: seq<char>, name: seq<char>): seq<char>
  {
    dir + Separator(dir) + name
  }

  /** The path `set_extension(ext)` leaves: the file name's stem, then '.' and `ext` unless `ext` is empty. */
  function WithExtension(path: seq<char>, ext: seq<char>): seq<char>
  {
    DirPart(path) + Stem(FileName(path)) + (if ext == [] then [] else "." + ext)
  }

  /** Joining a plain name makes it the file name, with the directory and its separator before it. */
  lemma JoinFileName(dir: seq<char>, name: seq<char>)
    requires PlainName(name)
    ensures FileName(Join(dir, name)) == name
    ensures DirPart(Join(dir, name)) == dir + Separator(dir)
  {
    var path := Join(dir, name);
    var prefix := dir + Separator(dir);
    assert path == prefix + name;
    if prefix != [] {
      assert prefix[|prefix| - 1] == '/';
      assert path[|prefix| - 1] == '/';
      assert path[|prefix|..] == name;
      LastIndexOfUnique(path, '/', |prefix| - 1);
    } else {
      assert path == name;
    }
  }

  /** A path: the in-place editable `PathBuf` of Rust. */
  class PathBuf {
    var inner: seq<char>

    constructor (path: seq<char>)
      ensures inner == path
    {
      inner := path;
    }

    /** `push(name)` for a relative plain name. */
    method Push(name: seq<char>)
      requires PlainName(name)
      modifies this
      ensures inner == Join(old(inner), name)
    {
      inner := inner + Separator(inner) + name;
    }

    /**
     * `set_extension(ext)`: fails, changing nothing, when the path has no file name
     * (its last component is ".."); otherwise truncates the path right after the file
     * stem and appends '.' and `ext` when `ext` is not empty.
     */
    method SetExtension(ext: seq<char>) returns (ok: bool)
      requires PlainName(FileName(inner))
      modifies this
      ensures ok <==> FileName(old(inner)) != ".."
      ensures inner == if ok then WithExtension(old(inner), ext) else old(inner)
    {
      var fileName := FileName(inner);
      if fileName == ".." {
        return false;
      }
      inner := DirPart(inner) + Stem(fileName);
      if ext != [] {
        inner := inner + "." + ext;
      }
      ok := true;
    }
  }
}
