/**
 * lsp::FileUri from lsp/fileuri.cpp: a Uri that is either a "file" URI or
 * invalid. A FileUri is a Uri object here; the constructors and assignments
 * of the C++ subclass are methods that build or overwrite one.
 */
module FileUris {
  import opened UriText
  import opened UriParts
  import opened Uris

  /** FileUri::Scheme. */
  const FileScheme: string := "file"

  /** What a default-constructed FileUri holds: scheme "file" and an
      authority that is present but empty. */
  const DefaultFile: Parts := Empty.(scheme := FileScheme, hasAuthority := true)

  /** What the conversion from a Uri keeps: the Uri itself when it is valid
      and its scheme is "file", an invalid Uri otherwise. */
  function Converted(v: Parts): Parts
  {
    if v.scheme != [] && v.scheme == FileScheme then v else Empty
  }

  /** A converted value is a file URI or invalid; it is valid exactly when
      the original had scheme "file", the conversion leaves alone exactly
      the file URIs and the invalid Uri, and converting again changes
      nothing. */
  lemma ConvertedIsFileOrInvalid(v: Parts)
    ensures Converted(v).scheme == FileScheme || Converted(v) == Empty
    ensures Converted(v).scheme != [] <==> v.scheme == FileScheme
    ensures Converted(v) == v <==> v.scheme == FileScheme || v == Empty
    ensures Converted(Converted(v)) == Converted(v)
  {
  }

  /** FileUri::FileUri(): setScheme(Scheme) and setAuthority({}), both of
      which succeed. */
  method NewFileUri() returns (u: Uri)
    ensures fresh(u) && u.Valid() && u.Value() == DefaultFile
  {
    u := new Uri();
    assert Ascii.Lowercase(FileScheme) == FileScheme by { Ascii.LowercaseFixed(FileScheme); }
    var ok := u.SetScheme(FileScheme);
    assert ok;
    assert u.Value() == Empty.(scheme := FileScheme);
    assert NormalizeCase([]) == [];
    ok := u.SetAuthority([]);
    assert ok;
  }

  /** FileUri::FileUri(const Uri&) and FileUri::FileUri(Uri&&): a copy of
      `other` when it is a valid "file" URI, otherwise an invalid Uri. */
  method FromUri(other: Uri) returns (u: Uri)
    requires other.Valid()
    ensures fresh(u) && u.Valid() && u.Value() == Converted(other.Value())
  {
    if other.IsValid() && other.Scheme() == FileScheme {
      u := Uri.Copy(other);
    } else {
      u := new Uri();
    }
  }

  /** FileUri::operator=(const Uri&) and FileUri::operator=(Uri&&): the
      target becomes FileUri(other). */
  method AssignUri(target: Uri, other: Uri)
    requires target.Valid() && other.Valid()
    modifies target
    ensures target.Valid() && target.Value() == Converted(old(other.Value()))
  {
    var converted := FromUri(other);
    target.Assign(converted);
  }

  /** FileUri::path(): on a Windows build one leading '/' is dropped. */
  function FilePath(v: Parts, windows: bool): (r: string)
    ensures |v.path| - 1 <= |r| <= |v.path| && r == v.path[|v.path| - |r|..]
    ensures r != v.path ==> windows && v.path == "/" + r
  {
    if windows && |v.path| > 0 && v.path[0] == '/' then v.path[1..] else v.path
  }

  /** The path FileUri::setPath stores for an absolute path: with a leading
      '/' on a Windows build. */
  function StoredPath(absolute: string, windows: bool): string
  {
    if windows then "/" + absolute else absolute
  }

  /** FileUri::path() gives back the absolute path FileUri::setPath stored,
      on either build. */
  lemma FilePathOfStoredPath(v: Parts, absolute: string, windows: bool)
    ensures FilePath(v.(path := StoredPath(absolute, windows)), windows) == absolute
  {
    if windows {
      assert ("/" + absolute)[1..] == absolute;
    }
  }

  /** FileUri::setPath: stores the absolute form of `path`, which
      std::filesystem::absolute computes (a parameter here); always succeeds. */
  method SetFilePath(u: Uri, path: string, absolute: string -> string, windows: bool) returns (ok: bool)
    requires u.Valid() && |StoredPath(absolute(path), windows)| < U16Modulus
    modifies u
    ensures u.Valid() && ok
    ensures u.Value() == old(u.Value()).(path := StoredPath(absolute(path), windows))
  {
    var a := absolute(path);
    var u8Path := if windows then "/" + a else a;
    ok := u.SetPath(u8Path);
    return true;
  }

  /** FileUri::fromPath: a default FileUri whose path is set. */
  method FromPath(path: string, absolute: string -> string, windows: bool) returns (u: Uri)
    requires |StoredPath(absolute(path), windows)| < U16Modulus
    ensures fresh(u) && u.Valid()
    ensures u.Value() == DefaultFile.(path := StoredPath(absolute(path), windows))
  {
    u := NewFileUri();
    var _ := SetFilePath(u, path, absolute, windows);
  }
}
