/**
 * `is_encrypted_file` and `decrypt_file`: classify a file as a likely container,
 * and decrypt one file into its resolved output path, removing the source only
 * after the plaintext has been written.
 */
module FileDecryptor {
  import opened Wrappers
  import opened BlockCipher
  import opened Container
  import opened Paths
  import opened FileSystem

  /** The smallest container: a 32-byte header and one cipher block. */
  const MIN_CONTAINER_SIZE: nat := 48

  /**
   * `is_encrypted_file(path)`: false when `os.path.getsize` raises (the path is
   * missing) or the size is under 48 bytes; otherwise true exactly when a 32-byte
   * header can be read.  Every exception is turned into false.
   */
  function IsEncryptedFile(env: Env, files: Files, p: Path): (r: bool)
    ensures r <==> p in files && p !in env.dirs && p !in env.unreadable && |files[p]| >= MIN_CONTAINER_SIZE
  {
    if !Exists(env, files, p) then false
    else if p !in env.dirs && |files[p]| < MIN_CONTAINER_SIZE then false
    else match ReadFile(env, files, p)
      case Failure(_) => false
      case Success(content) => |content[..Min(HEADER_LENGTH, |content|)]| == HEADER_LENGTH
  }

  /** How `decrypt_file` ends; its boolean is `Decrypted?`. */
  datatype FileOutcome =
    | Decrypted
    | NotFound(path: Path)
    | NotAContainer(path: Path)
    | DecryptFailed       // wrong password, corrupted data, or an I/O error inside the try block

  /** The message `decrypt_file` returns beside its boolean. */
  function FileMessage(o: FileOutcome): string {
    match o
    case Decrypted => "解密成功"
    case NotFound(p) => "文件不存在: " + p
    case NotAContainer(p) => "文件可能不是加密文件: " + p
    case DecryptFailed => "解密失败，密码可能不正确或文件已损坏。"
  }

  datatype FileResult = FileResult(outcome: FileOutcome, files: Files)

  /**
   * The effect of `decrypt_file(input, output_file_path, password, keep_original,
   * output_dir)`: its outcome and the files afterwards.  The input is read before
   * it is classified, so an unreadable input reports the generic failure.
   */
  function DecryptFileSpec(prims: Primitives, env: Env, files: Files, input: Path, outputPath: Option<Path>,
                           password: string, keepOriginal: bool, outputDir: Option<Path>): FileResult
  {
    if !Exists(env, files, input) then FileResult(NotFound(input), files)
    else
      var out := ResolveOutputPath(input, outputPath, outputDir);
      match ReadFile(env, files, input)
      case Failure(_) => FileResult(DecryptFailed, files)
      case Success(data) =>
        if !IsEncryptedFile(env, files, input) then FileResult(NotAContainer(input), files)
        else match DecryptData(prims, data, password)
          case Failure(_) => FileResult(DecryptFailed, files)
          case Success(plain) =>
            match WriteFile(env, files, out, plain)
            case Failure(_) => FileResult(DecryptFailed, files)
            case Success(written) =>
              if keepOriginal then FileResult(Decrypted, written)
              else match RemoveFile(env, written, input)
                case Failure(_) => FileResult(DecryptFailed, written)
                case Success(removed) => FileResult(Decrypted, removed)
  }

  /** `decrypt_file`, performing its system calls in the source's order. */
  method DecryptFile(prims: Primitives, fs: FileSystem, input: Path, outputPath: Option<Path>,
                     password: string, keepOriginal: bool, outputDir: Option<Path>)
    returns (success: bool, message: string)
    modifies fs
    ensures var r := DecryptFileSpec(prims, fs.env, old(fs.files), input, outputPath, password, keepOriginal, outputDir);
      success == r.outcome.Decrypted? && message == FileMessage(r.outcome) && fs.files == r.files
  {
    if !Exists(fs.env, fs.files, input) {
      return false, FileMessage(NotFound(input));
    }
    var out := ResolveOutputPath(input, outputPath, outputDir);
    var read := fs.Read(input);
    if read.Failure? {
      return false, FileMessage(DecryptFailed);
    }
    if !IsEncryptedFile(fs.env, fs.files, input) {
      return false, FileMessage(NotAContainer(input));
    }
    var plain := DecryptData(prims, read.value, password);
    if plain.Failure? {
      return false, FileMessage(DecryptFailed);
    }
    var written := fs.Write(out, plain.value);
    if written.Failure? {
      return false, FileMessage(DecryptFailed);
    }
    if !keepOriginal {
      var removed := fs.Remove(input);
      if removed.Failure? {
        return false, FileMessage(DecryptFailed);
      }
    }
    return true, FileMessage(Decrypted);
  }

  /**
   * Which of the four outcomes `decrypt_file` reports.  Every cipher and padding
   * error gives the same DecryptFailed, so a wrong password and a corrupted file
   * cannot be told apart.
   */
  lemma DecryptFileOutcomes(prims: Primitives, env: Env, files: Files, input: Path, outputPath: Option<Path>,
                            password: string, keepOriginal: bool, outputDir: Option<Path>)
    ensures var r := DecryptFileSpec(prims, env, files, input, outputPath, password, keepOriginal, outputDir);
      var out := ResolveOutputPath(input, outputPath, outputDir);
      && (r.outcome == NotFound(input) <==> !Exists(env, files, input))
      && (r.outcome == NotAContainer(input) <==> ReadFile(env, files, input).Success? && !IsEncryptedFile(env, files, input))
      && (r.outcome.Decrypted? <==>
           && IsEncryptedFile(env, files, input)
           && DecryptData(prims, files[input], password).Success?
           && out !in env.dirs && out !in env.unwritable
           && (keepOriginal || input !in env.undeletable))
      && (r.outcome.Decrypted? || r.outcome == NotFound(input) || r.outcome == NotAContainer(input) || r.outcome == DecryptFailed)
  {
  }

  /**
   * A failed `decrypt_file` removes nothing, and writes nothing unless the only
   * step that failed was removing the source after the plaintext was written.
   */
  lemma DecryptFileFailureGating(prims: Primitives, env: Env, files: Files, input: Path, outputPath: Option<Path>,
                                 password: string, keepOriginal: bool, outputDir: Option<Path>)
    ensures var r := DecryptFileSpec(prims, env, files, input, outputPath, password, keepOriginal, outputDir);
      !r.outcome.Decrypted? ==>
        && files.Keys <= r.files.Keys
        && (keepOriginal || input !in env.undeletable ==> r.files == files)
        && (r.files != files ==>
              && DecryptData(prims, files[input], password).Success?
              && r.files == files[ResolveOutputPath(input, outputPath, outputDir) := DecryptData(prims, files[input], password).value])
  {
  }

  /**
   * A successful `decrypt_file` writes exactly the decrypted plaintext to the output
   * path, and removes the source if and only if keep_original is false.
   */
  lemma DecryptFileSuccess(prims: Primitives, env: Env, files: Files, input: Path, outputPath: Option<Path>,
                           password: string, keepOriginal: bool, outputDir: Option<Path>)
    requires DecryptFileSpec(prims, env, files, input, outputPath, password, keepOriginal, outputDir).outcome.Decrypted?
    ensures var r := DecryptFileSpec(prims, env, files, input, outputPath, password, keepOriginal, outputDir);
      var out := ResolveOutputPath(input, outputPath, outputDir);
      && input in files && DecryptData(prims, files[input], password).Success?
      && var plain := DecryptData(prims, files[input], password).value;
      && r.files == (if keepOriginal then files[out := plain] else files[out := plain] - {input})
      && (out != input ==> out in r.files && r.files[out] == plain && (input in r.files <==> keepOriginal))
  {
  }

  /**
   * When the output path is the input path and keep_original is false, the
   * plaintext is written over the container and then removed with it, although
   * `decrypt_file` reports success.
   */
  lemma DecryptFileOntoItself(prims: Primitives, env: Env, files: Files, input: Path, password: string)
    requires DecryptFileSpec(prims, env, files, input, Some(input), password, false, None).outcome.Decrypted?
    ensures input !in DecryptFileSpec(prims, env, files, input, Some(input), password, false, None).files
  {
  }
}
