/**
 * The part of the operating system the decryptor touches: regular files with their
 * bytes, directories, and the permissions that make `open`, `os.remove` and
 * `shutil.copy2` raise.  Directories and permissions never change here; only the
 * files map does.
 */
module FileSystem {
  import opened Wrappers
  import opened BlockCipher
  import opened Paths

  /** The fixed environment: which paths are directories, and which operations are denied. */
  datatype Env = Env(dirs: set<Path>, unreadable: set<Path>, unwritable: set<Path>, undeletable: set<Path>)

  /** Regular files and their contents. */
  type Files = map<Path, Bytes>

  /** The OSError subclasses (and shutil.SameFileError) raised by the calls modelled here. */
  datatype OsError =
    | FileNotFound(path: Path)
    | PermissionDenied(path: Path)
    | IsADirectory(path: Path)
    | SameFile(src: Path, dst: Path)

  /** `os.path.exists(p)`: a file or a directory. */
  predicate Exists(env: Env, files: Files, p: Path) {
    p in files || p in env.dirs
  }

  /** `open(p, 'rb').read()`. */
  function ReadFile(env: Env, files: Files, p: Path): (r: Result<Bytes, OsError>)
    ensures r.Success? <==> p in files && p !in env.dirs && p !in env.unreadable
    ensures r.Success? ==> r.value == files[p]
  {
    if p in env.dirs then Failure(IsADirectory(p))
    else if p !in files then Failure(FileNotFound(p))
    else if p in env.unreadable then Failure(PermissionDenied(p))
    else Success(files[p])
  }

  /** `open(p, 'wb').write(data)`: creates or truncates the file. */
  function WriteFile(env: Env, files: Files, p: Path, data: Bytes): (r: Result<Files, OsError>)
    ensures r.Success? <==> p !in env.dirs && p !in env.unwritable
    ensures r.Success? ==> p in r.value && r.value[p] == data
    ensures r.Success? ==> forall q :: q != p ==> (q in r.value <==> q in files) && (q in files ==> r.value[q] == files[q])
  {
    if p in env.dirs then Failure(IsADirectory(p))
    else if p in env.unwritable then Failure(PermissionDenied(p))
    else Success(files[p := data])
  }

  /** `os.remove(p)`. */
  function RemoveFile(env: Env, files: Files, p: Path): (r: Result<Files, OsError>)
    ensures r.Success? <==> p in files && p !in env.dirs && p !in env.undeletable
    ensures r.Success? ==> p !in r.value
    ensures r.Success? ==> forall q :: q != p ==> (q in r.value <==> q in files) && (q in files ==> r.value[q] == files[q])
  {
    if p in env.dirs then Failure(IsADirectory(p))
    else if p !in files then Failure(FileNotFound(p))
    else if p in env.undeletable then Failure(PermissionDenied(p))
    else Success(files - {p})
  }

  /** `shutil.copy2(src, dst)`, contents only: the same-file check, then read, then write. */
  function CopyFile(env: Env, files: Files, src: Path, dst: Path): (r: Result<Files, OsError>)
    ensures r.Success? <==> src != dst && ReadFile(env, files, src).Success? && WriteFile(env, files, dst, []).Success?
    ensures r.Success? ==> src in files && r.value == files[dst := files[src]]
  {
    if src == dst then Failure(SameFile(src, dst))
    else match ReadFile(env, files, src)
      case Failure(e) => Failure(e)
      case Success(data) => WriteFile(env, files, dst, data)
  }

  /** The filesystem as the decryptor sees it; its methods are the system calls it makes. */
  class FileSystem {
    const env: Env
    var files: Files

    constructor (env: Env, files: Files)
      ensures this.env == env && this.files == files
    {
      this.env := env;
      this.files := files;
    }

    method Read(p: Path) returns (r: Result<Bytes, OsError>)
      ensures r == ReadFile(env, files, p)
    {
      r := ReadFile(env, files, p);
    }

    method Write(p: Path, data: Bytes) returns (r: Result<(), OsError>)
      modifies this
      ensures var w := WriteFile(env, old(files), p, data);
        (r == if w.Success? then Success(()) else Failure(w.error)) && files == if w.Success? then w.value else old(files)
    {
      var w := WriteFile(env, files, p, data);
      if w.Success? {
        files := w.value;
        r := Success(());
      } else {
        r := Failure(w.error);
      }
    }

    method Remove(p: Path) returns (r: Result<(), OsError>)
      modifies this
      ensures var d := RemoveFile(env, old(files), p);
        (r == if d.Success? then Success(()) else Failure(d.error)) && files == if d.Success? then d.value else old(files)
    {
      var d := RemoveFile(env, files, p);
      if d.Success? {
        files := d.value;
        r := Success(());
      } else {
        r := Failure(d.error);
      }
    }

    method Copy(src: Path, dst: Path) returns (r: Result<(), OsError>)
      modifies this
      ensures var c := CopyFile(env, old(files), src, dst);
        (r == if c.Success? then Success(()) else Failure(c.error)) && files == if c.Success? then c.value else old(files)
    {
      var c := CopyFile(env, files, src, dst);
      if c.Success? {
        files := c.value;
        r := Success(());
      } else {
        r := Failure(c.error);
      }
    }
  }
}
